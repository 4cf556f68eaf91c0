/**
 * The two modalities a design can be entered in, and the label the pages
 * show for a modality value.
 */
module Modalities {
  datatype Modality = Modality(value: string, labelText: string)

  /** `MODALITIES`. */
  const All: seq<Modality> := [Modality("online", "TDS Online Student"), Modality("in-person", "TDS In-Person Student")]

  /** The `reduce` into `modalityLabelMap`: each entry sets its value's label, a later entry overriding an earlier one. */
  function LabelMap(ms: seq<Modality>): map<string, string> {
    if |ms| == 0 then map[]
    else LabelMap(ms[..|ms| - 1])[ms[|ms| - 1].value := ms[|ms| - 1].labelText]
  }

  predicate DistinctValues(ms: seq<Modality>) {
    forall i, j :: 0 <= i < j < |ms| ==> ms[i].value != ms[j].value
  }

  /**
   * With distinct values the label map has exactly one entry per modality,
   * holding its label.
   */
  lemma {:induction false} LabelMapSpec(ms: seq<Modality>)
    requires DistinctValues(ms)
    ensures forall v :: v in LabelMap(ms) <==> exists i :: 0 <= i < |ms| && ms[i].value == v
    ensures forall i :: 0 <= i < |ms| ==> LabelMap(ms)[ms[i].value] == ms[i].labelText
    ensures |LabelMap(ms)| == |ms|
  {
    if |ms| > 0 {
      var init := ms[..|ms| - 1];
      var last := ms[|ms| - 1];
      LabelMapSpec(init);
      assert last.value !in LabelMap(init);
      forall v
        ensures v in LabelMap(ms) <==> exists i :: 0 <= i < |ms| && ms[i].value == v
      {
        if v in LabelMap(init) {
          var i :| 0 <= i < |init| && init[i].value == v;
          assert ms[i].value == v;
        }
        if exists i :: 0 <= i < |ms| && ms[i].value == v {
          var i :| 0 <= i < |ms| && ms[i].value == v;
          if i < |init| {
            assert init[i].value == v;
          }
        }
      }
      forall i | 0 <= i < |ms|
        ensures ms[i].value in LabelMap(ms) && LabelMap(ms)[ms[i].value] == ms[i].labelText
      {
        if i < |init| {
          assert init[i] == ms[i] && ms[i].value != last.value;
        }
      }
    }
  }

  /** `getModalityLabel`: the label of a known value, any other value unchanged. */
  function GetModalityLabel(value: string): (text: string)
    ensures value == "online" ==> text == "TDS Online Student"
    ensures value == "in-person" ==> text == "TDS In-Person Student"
    ensures value != "online" && value != "in-person" ==> text == value
  {
    LabelMapSpec(All);
    var labels := LabelMap(All);
    if value in labels then labels[value] else value
  }

  /** There are exactly two modalities, with distinct values, and the label map holds one entry for each. */
  lemma ModalitiesTable()
    ensures |All| == 2 && DistinctValues(All)
    ensures forall v :: v in LabelMap(All) <==> v == "online" || v == "in-person"
    ensures |LabelMap(All)| == 2
  {
    LabelMapSpec(All);
    assert All[0].value == "online" && All[1].value == "in-person";
  }
}
