/** The automatic choice of a generative model: a scan over the models the
    service lists, taking the first one that can generate content and whose
    name mentions "flash", with a fixed fallback name when none does. */
module ModelSelection {

  datatype Option<T> = None | Some(value: T)

  /** A model descriptor as the service lists it: its resource name and the
      generation methods it supports. */
  datatype ModelInfo = ModelInfo(name: string, supportedMethods: seq<string>)

  /** The name used when no listed model qualifies. */
  const DefaultModel: string := "models/gemini-1.5-flash"

  const GenerateMethod: string := "generateContent"
  const FlashTag: string := "flash"

  /** `needle` occurs in `hay` starting at position `i`. */
  predicate OccursAt(hay: string, needle: string, i: nat) {
    i + |needle| <= |hay| && hay[i..i + |needle|] == needle
  }

  /** Substring containment, the meaning of `needle in hay` on strings. */
  function ContainsSubstring(hay: string, needle: string): (r: bool)
    ensures r <==> exists i: nat :: OccursAt(hay, needle, i)
    decreases |hay|
  {
    if |hay| < |needle| then
      false
    else if hay[..|needle|] == needle then
      assert OccursAt(hay, needle, 0);
      true
    else
      var rest := ContainsSubstring(hay[1..], needle);
      assert forall i: nat :: OccursAt(hay[1..], needle, i) <==> OccursAt(hay, needle, i + 1) by {
        forall i: nat ensures OccursAt(hay[1..], needle, i) <==> OccursAt(hay, needle, i + 1) {
          if i + 1 + |needle| <= |hay| {
            assert hay[1..][i..i + |needle|] == hay[i + 1..i + 1 + |needle|];
          }
        }
      }
      assert !OccursAt(hay, needle, 0);
      assert (exists i: nat :: OccursAt(hay, needle, i)) ==> exists i: nat :: OccursAt(hay[1..], needle, i) by {
        if exists i: nat :: OccursAt(hay, needle, i) {
          var i: nat :| OccursAt(hay, needle, i);
          assert i != 0;
          assert OccursAt(hay[1..], needle, i - 1);
        }
      }
      rest
  }

  /** The two tests the scan applies to one model. */
  predicate Qualifies(m: ModelInfo): (r: bool)
    ensures r <==> GenerateMethod in m.supportedMethods && exists i: nat :: OccursAt(m.name, FlashTag, i)
  {
    GenerateMethod in m.supportedMethods && ContainsSubstring(m.name, FlashTag)
  }

  /** Reference definition: the index of the first qualifying model at or
      after `from`, if any. */
  function FirstQualifyingFrom(models: seq<ModelInfo>, from: nat): (r: Option<nat>)
    requires from <= |models|
    ensures r.Some? ==> from <= r.value < |models| && Qualifies(models[r.value])
                        && forall j :: from <= j < r.value ==> !Qualifies(models[j])
    ensures r.None? ==> forall j :: from <= j < |models| ==> !Qualifies(models[j])
    decreases |models| - from
  {
    if from == |models| then None
    else if Qualifies(models[from]) then Some(from)
    else FirstQualifyingFrom(models, from + 1)
  }

  /** The name the scan settles on, defined without a loop. */
  function SelectedName(models: seq<ModelInfo>): (r: string)
    ensures (forall j :: 0 <= j < |models| ==> !Qualifies(models[j])) ==> r == DefaultModel
    ensures (exists k :: 0 <= k < |models| && Qualifies(models[k])) ==>
              exists k :: 0 <= k < |models| && Qualifies(models[k]) && r == models[k].name
                          && forall j :: 0 <= j < k ==> !Qualifies(models[j])
  {
    match FirstQualifyingFrom(models, 0)
    case Some(k) => models[k].name
    case None => DefaultModel
  }

  /** The scan as the application runs it: a loop that keeps the fallback
      until the first qualifying model and then stops. */
  method SelectModel(models: seq<ModelInfo>) returns (modelName: string)
    ensures modelName == SelectedName(models)
    ensures (forall j :: 0 <= j < |models| ==> !Qualifies(models[j])) ==> modelName == DefaultModel
    ensures (exists k :: 0 <= k < |models| && Qualifies(models[k])) ==>
              exists k :: 0 <= k < |models| && Qualifies(models[k]) && modelName == models[k].name
                          && forall j :: 0 <= j < k ==> !Qualifies(models[j])
  {
    modelName := DefaultModel;
    for i := 0 to |models|
      invariant modelName == DefaultModel
      invariant forall j :: 0 <= j < i ==> !Qualifies(models[j])
    {
      var m := models[i];
      if GenerateMethod in m.supportedMethods {
        if ContainsSubstring(m.name, FlashTag) {
          modelName := m.name;
          FirstQualifyingIsIndex(models, i);
          break;
        }
      }
    }
  }

  /** Every model before `k` failing and `k` passing pins down the first match. */
  lemma FirstQualifyingIsIndex(models: seq<ModelInfo>, k: nat)
    requires k < |models| && Qualifies(models[k])
    requires forall j :: 0 <= j < k ==> !Qualifies(models[j])
    ensures FirstQualifyingFrom(models, 0) == Some(k)
    ensures SelectedName(models) == models[k].name
  {
  }

  /** With no qualifying model, the empty list included, the fallback is used. */
  lemma NoQualifyingModelGivesDefault(models: seq<ModelInfo>)
    requires forall j :: 0 <= j < |models| ==> !Qualifies(models[j])
    ensures SelectedName(models) == DefaultModel
  {
  }

  /** Otherwise the name is that of the lowest-index qualifying model. */
  lemma SelectedIsFirstQualifying(models: seq<ModelInfo>, k: nat)
    requires k < |models| && Qualifies(models[k])
    ensures exists i :: 0 <= i <= k && Qualifies(models[i]) && SelectedName(models) == models[i].name
                        && forall j :: 0 <= j < i ==> !Qualifies(models[j])
  {
  }

  /** Models listed after the first qualifying one play no part: the scan
      stops there. */
  lemma {:induction false} LaterModelsIrrelevant(prefix: seq<ModelInfo>, rest: seq<ModelInfo>)
    requires exists k :: 0 <= k < |prefix| && Qualifies(prefix[k])
    ensures SelectedName(prefix + rest) == SelectedName(prefix)
  {
    var r := FirstQualifyingFrom(prefix, 0);
    var k := r.value;
    var all := prefix + rest;
    assert all[k] == prefix[k];
    forall j | 0 <= j < k ensures !Qualifies(all[j]) {
      assert all[j] == prefix[j];
    }
    FirstQualifyingIsIndex(all, k);
  }
}
