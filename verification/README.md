# densenet.py: checkpoint key remapping and dropout injection

This project models the two pieces of `densenet.py` that hold logic of their
own. Everything else in the file hands its work to PyTorch.

- `load_dictionary` re-keys a checkpoint's state dict in place. The checkpoint
  was saved from a model wrapped for data parallelism, so every key loses a
  7-character prefix. It was also saved by an older torchvision, so the first
  of the dense-layer sub-module names `norm.1`, `norm.2`, `conv.1`, `conv.2`
  found in the key is renamed to `norm1`, `norm2`, `conv1`, `conv2`. The loop
  walks a snapshot of the original keys. For each key it pops the entry and
  stores the value under the new key.
- `add_dropout_rec` and `add_dropout` put a dropout layer after every
  convolution and fully connected layer of a network's module tree. The first
  feature stage, `conv0`, is skipped.

The model has five modules.

- `Wrappers` (`wrappers.dfy`) holds the `Option` and `Result` types.
- `PyStr` (`py_str.dfy`) holds the Python string operations the rename uses:
  substring test, `key[7:]`, and `str.replace`. It also has `split`/`join`,
  which give `str.replace` an independent description.
- `KeyRename` (`key_rename.dfy`) holds the rule for one key.
- `StateDictRemap` (`state_dict.dfy`) holds the state dict and the loop.
  - A state dict is an insertion-ordered dictionary, modelled as a key order
    plus a map.
  - `pop` takes the key out of both the order and the map.
  - Storing a new key appends it to the order. Storing an existing key keeps
    its place.
  - Python evaluates `d.pop(key)` before the subscript it is stored under, and
    the model does the same.
  - The loop lemmas are stated for any renaming function `rename`.
    `LoadDictionary` passes `KeyRename.Rename`.
- `DropoutInjection` (`dropout.dfy`) holds the module tree and the rewrite.
  - The tree is a datatype. `Node` stands for every module other than
    `Conv2d`, `Linear` and `Dropout`, and lists its named children in
    registration order.
  - `WithDropout` specifies the rewrite as a function. `AddDropoutRec` is the
    recursive method that replaces the children one by one in a loop.
  - `Net.AddDropout` updates the `features` and `classifier` fields of a
    `Net` object.

## Model

| member | source | states |
|---|---|---|
| PyStr.ContainsIffOccurs | densenet.py:99 | `t in s` holds exactly when `t` occurs at some index of `s` |
| PyStr.Drop | densenet.py:100 | `key[7:]` is empty when the key has at most 7 characters; otherwise it is the characters from index 7 on, in order |
| PyStr.ReplaceAll | densenet.py:100 | `str.replace` leaves a string without the pattern unchanged; a replacement no longer than the pattern never makes the string longer; a strictly shorter one makes it strictly shorter whenever the pattern occurs |
| PyStr.ReplaceIsSplitJoin | densenet.py:100 | replacing equals splitting at the pattern and joining the pieces with the replacement |
| PyStr.SplitPiecesFree | densenet.py:100 | no piece of the split holds the separator, so every occurrence is replaced |
| PyStr.SplitJoinRoundTrip | densenet.py:100 | joining the split pieces with the separator gives the string back |
| PyStr.ReplaceBySelf | densenet.py:100 | replacing a pattern by itself changes nothing |
| KeyRename.DotlessDropsTheDot | densenet.py:99-106 | there are four old names and four new names; each new name is its old name with the dot at index 4 removed |
| KeyRename.FirstTrigger | densenet.py:99-106 | the branch taken is the first old name, in test order, that occurs anywhere in the whole key; no earlier one occurs; no branch is taken only when none of the four occurs |
| KeyRename.Rename | densenet.py:99-108 | the new key is never longer than `key[7:]`; a key without an old name becomes exactly `key[7:]`; otherwise the new key differs from `key[7:]` exactly when the selected old name occurs in `key[7:]` |
| KeyRename.RenameSplitsAtFirstTrigger | densenet.py:99-106 | the new key is `key[7:]` cut at every occurrence of the first old name found and glued back with its new name; gluing with the old name gives `key[7:]` back |
| KeyRename.FirstTriggerNorm1 | densenet.py:99-100 | a key holding `norm.1` anywhere takes the first branch, whatever other old names it holds; its new key is `key[7:]` cut at every `norm.1` and glued back with `norm1`, and no piece between the cuts holds `norm.1` |
| KeyRename.RenameDenseLayerNorm | densenet.py:99-100 | `module.denseblock1.norm.1.weight` becomes `denseblock1.norm1.weight` |
| KeyRename.RenameNoTrigger | densenet.py:107-108 | `module.features.conv0.weight` becomes `features.conv0.weight` |
| KeyRename.RenameOnlyFirstTrigger | densenet.py:99-106 | only the first old name found is replaced: `module.norm.1.conv.2` becomes `norm1.conv.2` |
| KeyRename.RenameTriggerInPrefix | densenet.py:99-100 | an old name that lies only in the first 7 characters selects its branch and then replaces nothing: `norm.1.weight` becomes `weight` |
| StateDictRemap.Remove | densenet.py:100 | taking a key out of the key order keeps exactly the other keys, and keeps the order free of repeats |
| StateDictRemap.RemoveAt | densenet.py:100 | in an order without repeats, taking out the key at index `i` leaves the keys before it followed by the keys after it, each in their order |
| StateDictRemap.StateDict.Pop | densenet.py:100 | `pop` returns the value under the key; the table loses that entry and no other; the order loses that key, the rest keeping their order; a well-formed dict stays well formed |
| StateDictRemap.StateDict.Store | densenet.py:100 | storing sets the value under the key; a new key goes to the end of the order, an existing key keeps its place; a well-formed dict stays well formed |
| StateDictRemap.StepTable | densenet.py:99-108 | one turn moves the value under the key to its new key and leaves the other entries alone |
| StateDictRemap.Remapped | densenet.py:97-108 | the dict stays well formed through the loop, and every key still to be processed is present, so no `pop` fails |
| StateDictRemap.LoadDictionary | densenet.py:87-110 | a checkpoint without a state dict fails with the missing-key error; otherwise the result is the dict after every key of the snapshot, in insertion order, has been popped and stored under `Rename(key)` |
| StateDictRemap.RemappedKeys | densenet.py:97-108 | for any keys, every key of the result is an unprocessed original key or a new key |
| StateDictRemap.RemappedValues | densenet.py:97-108 | for any keys, every value of the result is the unchanged value of some original key |
| StateDictRemap.NoOriginalSurvives | densenet.py:97-110 | after the whole loop, and whatever the renaming, no original key survives unless some key was renamed to it |
| StateDictRemap.MovedKeys | densenet.py:97-108 | the stored entries sit under exactly the new keys |
| StateDictRemap.RemappedLastWins | densenet.py:97-110 | when no new key equals a key still waiting and several keys get the same new key, the result holds the value of the last one processed |
| StateDictRemap.ClashOverwritesWaitingKey | densenet.py:100 | when the first of two keys is renamed onto the second, storing it overwrites the second's value before the second is popped, so `[a, b]` both renamed to `b` gives `{b: va}` |
| StateDictRemap.RemappedTable | densenet.py:97-108 | when no new key equals a key still waiting, the table after processing a prefix of the keys is the unprocessed originals plus the moved entries |
| StateDictRemap.RemappedOrder | densenet.py:97-108 | under the same condition, with pairwise distinct new keys, after `i` turns the order is the keys still waiting followed by the new keys of the processed ones |
| StateDictRemap.RemappedShape | densenet.py:97-110 | under both conditions, the result's order is the new keys in processing order; it holds exactly the new keys; it has as many entries as the input, so an empty state dict gives an empty result |
| StateDictRemap.RemappedMovesValues | densenet.py:97-110 | under both conditions, each new key holds the unchanged value of its original key |
| StateDictRemap.RemappedKeysExact | densenet.py:97-110 | when no new key equals a key still waiting, the result holds exactly the new keys |
| StateDictRemap.SizeKeptIffInjective | densenet.py:97-110 | under that condition, the result has as many entries as the input exactly when the new keys are pairwise distinct; a collision loses an entry |
| DropoutInjection.WithDropout | densenet.py:25-31 | the rewrite never returns a bare convolution or fully connected layer; any other node keeps its kind and its child names in their order |
| DropoutInjection.AddDropoutRec | densenet.py:25-31 | the recursive method that replaces each child in turn computes `WithDropout` |
| DropoutInjection.DropoutCount | densenet.py:25-31 | the rewrite adds exactly one dropout per convolution or fully connected layer, and keeps the number of those layers |
| DropoutInjection.TargetsAllWrapped | densenet.py:26-29 | after the rewrite, every convolution and fully connected layer sits first in a two-child `Sequential` followed by a `Dropout` with probability `p` |
| DropoutInjection.UnwrapWithDropout | densenet.py:26-31 | taking off every wrapper whose dropout has probability `p` gives back the original tree, so the wrapped layers are unmodified and nothing else changes |
| DropoutInjection.NoTargetsUnchanged | densenet.py:28-31 | a tree without convolutions or fully connected layers comes back unchanged |
| DropoutInjection.NotIdempotent | densenet.py:26-27 | a second run adds another dropout for every such layer, giving twice as many added dropouts as layers, so a tree with one changes again |
| DropoutInjection.FeaturesWithDropout | densenet.py:35-37 | `features` keeps its kind and its number of children, and the child named `conv0` is untouched |
| DropoutInjection.FeaturesDropoutCount | densenet.py:35-37 | the dropouts added to `features` equal the convolutions and fully connected layers outside `conv0` |
| DropoutInjection.Net.AddDropout | densenet.py:34-39 | with `p` defaulting to 0.1, `features` and `classifier` become their rewritten versions; the net gains one dropout per such layer outside `conv0` plus one per such layer in the classifier |

## Left out

- `average_cross_entropy` (densenet.py:8-22) is not modelled. It is floating-point binary cross-entropy computed by a PyTorch primitive, with autograd and device placement. Its only own logic is a sum of the per-column losses over the column indices.
- The `DenseNet` and `DenseNet121` classes (densenet.py:42-84) are not modelled. Pretrained weights, convolution, pooling, sigmoid and the forward passes all belong to torchvision and torch.
- `torch.load`, the `map_location` branch and CUDA detection (densenet.py:14-16, 92-95) are file I/O and device placement. The loaded checkpoint is a parameter of `LoadDictionary`.
- The `__main__` stub (densenet.py:113-114) does nothing.
- Tensors are an opaque value type `V`. The model only moves values and never looks inside them.
- Object identity is not modelled.
  - `load_dictionary` returns the same dict object the checkpoint holds.
  - On a module that is not a `Conv2d` or `Linear`, `add_dropout_rec` changes its child table in place and returns that same object. A `Conv2d` or `Linear` is not changed; a new `Sequential` is returned around it.
  - `add_dropout` returns the net it was given. `Net.AddDropout` updates the object and returns nothing.
- Shared modules are not modelled. The model works on values, so a module that appears twice in a tree is two copies here, each rewritten once. In PyTorch it is one object, and the rewrite reaches it twice. When it is not a `Conv2d` or `Linear`, the second visit wraps its layers again, so each of them ends up as `Sequential(Sequential(layer, Dropout(p)), Dropout(p))`.
- `nn.Dropout` rejects a probability outside [0, 1] when it is constructed. Here `p` is any real.
- `isinstance` also accepts subclasses of `Conv2d` and `Linear`. The model has one constructor for each and treats every other module as a `Node`.
- PyStr.ReplaceAll: requires a non-empty pattern, so Python's behaviour for an empty pattern is not modelled. The four patterns the rename uses are non-empty.
- StateDictRemap.RemappedShape: the exact order and contents are stated only when no new key equals a key still waiting and the new keys are pairwise distinct. When new keys are shared but none equals a key still waiting, RemappedKeysExact, SizeKeptIffInjective and RemappedLastWins hold. When a new key equals a key still waiting, only RemappedKeys, RemappedValues and NoOriginalSurvives hold, and last-wins fails (ClashOverwritesWaitingKey).
