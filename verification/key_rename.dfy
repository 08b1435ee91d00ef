/**
 * The rule `load_dictionary` applies to one checkpoint key: the published
 * checkpoint was saved from a model wrapped for data parallelism, so its keys
 * carry a 7-character prefix, and it was saved with an older torchvision whose
 * dense layers named their sub-modules `norm.1`, `conv.2`, ... where the
 * current one uses `norm1`, `conv2`, ...
 */
module KeyRename {

  import opened PyStr
  import opened Wrappers

  /** Length of the prefix that every key loses. */
  const PrefixLength: nat := 7

  /** The old sub-module names, in the order the rename tests them. */
  const Triggers: seq<Str> := ["norm.1", "norm.2", "conv.1", "conv.2"]

  /** The new names, position by position. */
  const Dotless: seq<Str> := ["norm1", "norm2", "conv1", "conv2"]

  /** Each new name is its old name with the dot at index 4 taken out. */
  lemma DotlessDropsTheDot()
    ensures |Triggers| == |Dotless| == 4
    ensures forall i :: 0 <= i < 4 ==>
      Triggers[i][4] == '.' && Dotless[i] == Triggers[i][..4] + Triggers[i][5..]
  {
  }

  /**
   * Position in `Triggers` of the first old name that occurs in `key` at or
   * after position `from`, searching the table in order.
   */
  function FirstTriggerFrom(key: Str, from: nat): (r: Option<nat>)
    requires from <= |Triggers|
    ensures r.Some? ==> from <= r.value < |Triggers| && Contains(key, Triggers[r.value])
    ensures r.Some? ==> forall j :: from <= j < r.value ==> !Contains(key, Triggers[j])
    ensures r.None? ==> forall j :: from <= j < |Triggers| ==> !Contains(key, Triggers[j])
    decreases |Triggers| - from
  {
    if from == |Triggers| then None
    else if Contains(key, Triggers[from]) then Some(from)
    else FirstTriggerFrom(key, from + 1)
  }

  /** The old name the rename acts on: the first of the table that occurs anywhere in the key. */
  function FirstTrigger(key: Str): (r: Option<nat>)
    ensures r.Some? ==> r.value < |Triggers| && Contains(key, Triggers[r.value])
    ensures r.Some? ==> forall j :: 0 <= j < r.value ==> !Contains(key, Triggers[j])
    ensures r.None? ==> forall j :: 0 <= j < |Triggers| ==> !Contains(key, Triggers[j])
  {
    FirstTriggerFrom(key, 0)
  }

  /**
   * The new key for `key`: the whole key is tested for the four old names in
   * turn; the first one found is replaced, everywhere in the key less its
   * 7-character prefix, by its new name. A key with none of them only loses
   * the prefix.
   */
  function Rename(key: Str): (r: Str)
    ensures |r| <= |Drop(key, PrefixLength)|
    ensures FirstTrigger(key).None? ==> r == Drop(key, PrefixLength)
    ensures FirstTrigger(key).Some? ==>
      (r == Drop(key, PrefixLength) <==> !Contains(Drop(key, PrefixLength), Triggers[FirstTrigger(key).value]))
  {
    var suffix := Drop(key, PrefixLength);
    if Contains(key, "norm.1") then ReplaceAll(suffix, "norm.1", "norm1")
    else if Contains(key, "norm.2") then ReplaceAll(suffix, "norm.2", "norm2")
    else if Contains(key, "conv.1") then ReplaceAll(suffix, "conv.1", "conv1")
    else if Contains(key, "conv.2") then ReplaceAll(suffix, "conv.2", "conv2")
    else suffix
  }

  /**
   * Rename against an independent description: the key less its prefix is cut
   * at every occurrence of the first old name found in the whole key, and the
   * pieces, none of which holds that name, are glued back with the new name.
   */
  lemma RenameSplitsAtFirstTrigger(key: Str)
    ensures FirstTrigger(key).Some? ==>
      var i := FirstTrigger(key).value;
      && Rename(key) == Join(Split(Drop(key, PrefixLength), Triggers[i]), Dotless[i])
      && Drop(key, PrefixLength) == Join(Split(Drop(key, PrefixLength), Triggers[i]), Triggers[i])
  {
    if FirstTrigger(key).Some? {
      var i := FirstTrigger(key).value;
      ReplaceIsSplitJoin(Drop(key, PrefixLength), Triggers[i], Dotless[i]);
      SplitJoinRoundTrip(Drop(key, PrefixLength), Triggers[i]);
    }
  }

  /** A key holding none of the four old names only loses its prefix. */
  lemma NoTriggerOnlyDropsPrefix(key: Str)
    requires forall j :: 0 <= j < |Triggers| ==> !Contains(key, Triggers[j])
    ensures Rename(key) == Drop(key, PrefixLength)
  {
    assert !Contains(key, Triggers[0]) && !Contains(key, Triggers[1]);
    assert !Contains(key, Triggers[2]) && !Contains(key, Triggers[3]);
  }

  /** The `norm.1` branch, as the worked examples below use it. */
  lemma Norm1Branch(key: Str)
    requires Contains(key, "norm.1")
    ensures Rename(key) == ReplaceAll(Drop(key, PrefixLength), "norm.1", "norm1")
  {
  }

  /**
   * A key holding `norm.1` anywhere takes the first branch, whatever else it
   * holds, and its new key is what follows the prefix cut at every `norm.1`
   * and glued back with `norm1`: no piece between the cuts holds `norm.1`.
   */
  lemma FirstTriggerNorm1(key: Str)
    requires Contains(key, "norm.1")
    ensures FirstTrigger(key) == Some(0)
    ensures Rename(key) == Join(Split(Drop(key, PrefixLength), "norm.1"), "norm1")
    ensures forall i :: 0 <= i < |Split(Drop(key, PrefixLength), "norm.1")| ==>
      !Contains(Split(Drop(key, PrefixLength), "norm.1")[i], "norm.1")
  {
    assert Triggers[0] == "norm.1" && Dotless[0] == "norm1";
    RenameSplitsAtFirstTrigger(key);
    SplitPiecesFree(Drop(key, PrefixLength), "norm.1");
  }

  // Worked examples. Each is split into small facts about the literal text,
  // proved apart, and a last step through Rename.

  /** An occurrence at a known index makes `Contains` true. */
  lemma ContainsAt(s: Str, t: Str, i: nat)
    requires OccursAt(s, t, i)
    ensures Contains(s, t)
  {
    ContainsIffOccurs(s, t);
  }

  lemma DenseLayerNormFound()
    ensures Contains("module.denseblock1.norm.1.weight", "norm.1")
  {
    assert OccursAt("module.denseblock1.norm.1.weight", "norm.1", 19);
    ContainsAt("module.denseblock1.norm.1.weight", "norm.1", 19);
  }

  lemma DenseLayerNormSuffix()
    ensures Drop("module.denseblock1.norm.1.weight", PrefixLength) == "denseblock1.norm.1.weight"
  {
  }

  lemma DenseLayerNormScanStart()
    ensures ReplaceAll("de" + ("n" + ("seblock1." + ("norm.1" + ".weight"))), "norm.1", "norm1")
         == "de" + ReplaceAll("n" + ("seblock1." + ("norm.1" + ".weight")), "norm.1", "norm1")
  {
    ReplaceSkipsClean("de", "n" + ("seblock1." + ("norm.1" + ".weight")), "norm.1", "norm1");
  }

  lemma DenseLayerNormScanMismatch()
    ensures ReplaceAll("n" + ("seblock1." + ("norm.1" + ".weight")), "norm.1", "norm1")
         == "n" + ReplaceAll("seblock1." + ("norm.1" + ".weight"), "norm.1", "norm1")
  {
    var s := "n" + ("seblock1." + ("norm.1" + ".weight"));
    assert s[..6][1] == 's';
    assert s[1..] == "seblock1." + ("norm.1" + ".weight");
  }

  lemma DenseLayerNormScanMatch()
    ensures ReplaceAll("norm.1" + ".weight", "norm.1", "norm1") == "norm1" + ".weight"
  {
    ReplaceAtFront(".weight", "norm.1", "norm1");
    MissingCharNotContained(".weight", "norm.1", 0);
  }

  lemma DenseLayerNormScanTail()
    ensures ReplaceAll("seblock1." + ("norm.1" + ".weight"), "norm.1", "norm1") == "seblock1.norm1.weight"
  {
    ReplaceSkipsClean("seblock1.", "norm.1" + ".weight", "norm.1", "norm1");
    DenseLayerNormScanMatch();
  }

  lemma DenseLayerNormScanParts()
    ensures ReplaceAll("de" + ("n" + ("seblock1." + ("norm.1" + ".weight"))), "norm.1", "norm1")
         == "de" + ("n" + "seblock1.norm1.weight")
  {
    DenseLayerNormScanStart();
    DenseLayerNormScanMismatch();
    DenseLayerNormScanTail();
  }

  lemma DenseLayerNormScan()
    ensures ReplaceAll("denseblock1.norm.1.weight", "norm.1", "norm1") == "denseblock1.norm1.weight"
  {
    assert "denseblock1.norm.1.weight" == "de" + ("n" + ("seblock1." + ("norm.1" + ".weight")));
    assert "denseblock1.norm1.weight" == "de" + ("n" + "seblock1.norm1.weight");
    DenseLayerNormScanParts();
  }

  /** A dense-layer norm key: prefix dropped, `norm.1` becomes `norm1`. */
  lemma RenameDenseLayerNorm()
    ensures Rename("module.denseblock1.norm.1.weight") == "denseblock1.norm1.weight"
  {
    DenseLayerNormFound();
    DenseLayerNormSuffix();
    Norm1Branch("module.denseblock1.norm.1.weight");
    DenseLayerNormScan();
  }

  lemma PlainKeyDigits()
    ensures '1' !in "module.features.conv0.weight" && '2' !in "module.features.conv0.weight"
  {
  }

  lemma PlainKeyFacts()
    ensures forall j :: 0 <= j < |Triggers| ==> !Contains("module.features.conv0.weight", Triggers[j])
    ensures Drop("module.features.conv0.weight", PrefixLength) == "features.conv0.weight"
  {
    var key := "module.features.conv0.weight";
    PlainKeyDigits();
    forall j | 0 <= j < |Triggers| ensures !Contains(key, Triggers[j]) {
      MissingCharNotContained(key, Triggers[j], 5);
    }
  }

  /** A key with none of the old names only loses its prefix. */
  lemma RenameNoTrigger()
    ensures Rename("module.features.conv0.weight") == "features.conv0.weight"
  {
    PlainKeyFacts();
    NoTriggerOnlyDropsPrefix("module.features.conv0.weight");
  }

  lemma OnlyFirstTriggerFound()
    ensures Contains("module.norm.1.conv.2", "norm.1")
  {
    assert OccursAt("module.norm.1.conv.2", "norm.1", 7);
    ContainsAt("module.norm.1.conv.2", "norm.1", 7);
  }

  lemma OnlyFirstTriggerSuffix()
    ensures Drop("module.norm.1.conv.2", PrefixLength) == "norm.1" + ".conv.2"
  {
  }

  lemma OnlyFirstTriggerRest()
    ensures ReplaceAll(".conv.2", "norm.1", "norm1") == ".conv.2"
  {
    MissingCharNotContained(".conv.2", "norm.1", 3);
  }

  lemma OnlyFirstTriggerScan()
    ensures ReplaceAll("norm.1" + ".conv.2", "norm.1", "norm1") == "norm1.conv.2"
  {
    ReplaceAtFront(".conv.2", "norm.1", "norm1");
    OnlyFirstTriggerRest();
  }

  /**
   * The tests run in a fixed order and only the first old name found is
   * replaced: with both `norm.1` and `conv.2` present, `conv.2` stays.
   */
  lemma RenameOnlyFirstTrigger()
    ensures Rename("module.norm.1.conv.2") == "norm1.conv.2"
  {
    OnlyFirstTriggerFound();
    OnlyFirstTriggerSuffix();
    OnlyFirstTriggerScan();
    Norm1Branch("module.norm.1.conv.2");
  }

  lemma TriggerInPrefixFacts()
    ensures Drop("norm.1.weight", PrefixLength) == "weight"
    ensures forall j :: 0 <= j < |Triggers| ==> !Contains("weight", Triggers[j])
  {
    forall j | 0 <= j < |Triggers| ensures !Contains("weight", Triggers[j]) {
      MissingCharNotContained("weight", Triggers[j], 4);
    }
  }

  /**
   * The test looks at the whole key but the replacement only at what follows
   * the prefix: an old name lying in the first 7 characters selects its branch
   * and then replaces nothing.
   */
  lemma RenameTriggerInPrefix()
    ensures Rename("norm.1.weight") == "weight"
  {
    TriggerInPrefixFacts();
  }
}
