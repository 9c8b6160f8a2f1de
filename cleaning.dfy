/** The cleaning step of the script and the two label vectors derived from
    the cleaned table: rows are kept when their status is "paid" or
    "defaulted"; the classifiers learn the "defaulted" indicator and the
    embedding model the "paid" indicator. */
module Cleaning {
  import opened Wrappers
  import opened FeatureEncoder

  const ValidStatus: seq<string> := ["paid", "defaulted"]

  /** Whether the row's status is `value`. A row without a textual status
      (a missing value in the data frame) matches no value. */
  predicate IsStatus(r: Row, value: string)
  {
    "Status" in r && r["Status"] == Text(value)
  }

  /** `Status.isin(valid_status)` for one row. */
  predicate HasValidStatus(r: Row)
  {
    "Status" in r && r["Status"].Text? && r["Status"].s in ValidStatus
  }

  /** The filtered table `df_clean`. */
  function Clean(raw: Table): (clean: Table)
    ensures |clean| <= |raw|
    ensures forall i :: 0 <= i < |clean| ==> HasValidStatus(clean[i])
  {
    if raw == [] then []
    else (if HasValidStatus(raw[0]) then [raw[0]] else []) + Clean(raw[1..])
  }

  /** Filtering distributes over concatenation, so the kept rows stay in
      their original order. */
  lemma {:induction false} CleanAppend(a: Table, b: Table)
    ensures Clean(a + b) == Clean(a) + Clean(b)
  {
    if a == [] {
      assert a + b == b;
    } else {
      assert (a + b)[1..] == a[1..] + b;
      CleanAppend(a[1..], b);
    }
  }

  /** A row is in the cleaned table exactly when it is in the raw table and
      its status is valid. */
  lemma {:induction false} CleanMembers(raw: Table)
    ensures forall r :: r in Clean(raw) <==> r in raw && HasValidStatus(r)
  {
    if raw != [] {
      CleanMembers(raw[1..]);
      assert forall r :: r in raw <==> r == raw[0] || r in raw[1..];
    }
  }

  /** A table whose statuses are all valid is left as it is; in particular
      cleaning twice is cleaning once. */
  lemma {:induction false} CleanKeepsValid(t: Table)
    requires forall i :: 0 <= i < |t| ==> HasValidStatus(t[i])
    ensures Clean(t) == t
  {
    if t != [] {
      CleanKeepsValid(t[1..]);
    }
  }

  lemma CleanIdempotent(raw: Table)
    ensures Clean(Clean(raw)) == Clean(raw)
  {
    CleanKeepsValid(Clean(raw));
  }

  /** `pd.get_dummies(t['Status'])[value]`: the indicator column of `value`.
      The dummy column exists only when some row has that status; selecting
      it otherwise raises `KeyError`, which is `None` here. */
  function Dummy(t: Table, value: string): (y: Option<seq<int>>)
    ensures y.None? <==> forall i :: 0 <= i < |t| ==> !IsStatus(t[i], value)
    ensures y.Some? ==> (|y.value| == |t| &&
      forall i :: 0 <= i < |t| ==> y.value[i] in {0, 1} && (y.value[i] == 1 <==> IsStatus(t[i], value)))
  {
    if exists i :: 0 <= i < |t| && IsStatus(t[i], value)
    then Some(seq(|t|, i requires 0 <= i < |t| => if IsStatus(t[i], value) then 1 else 0))
    else None
  }

  /** The classifiers' label vector `y`. */
  function ClassifierLabels(t: Table): (y: Option<seq<int>>)
    ensures y.None? <==> forall i :: 0 <= i < |t| ==> !IsStatus(t[i], "defaulted")
    ensures y.Some? ==> (|y.value| == |t| &&
      forall i :: 0 <= i < |t| ==> y.value[i] in {0, 1} && (y.value[i] == 1 <==> IsStatus(t[i], "defaulted")))
  {
    Dummy(t, "defaulted")
  }

  /** The embedding model's label vector. */
  function EmbeddingLabels(t: Table): Option<seq<int>>
  {
    Dummy(t, "paid")
  }

  /** The classifier label of a cleaned row is 1 exactly when the row is
      "defaulted" and 0 otherwise; it is missing exactly when no row is. */
  lemma ClassifierLabelsMeaning(raw: Table)
    ensures ClassifierLabels(Clean(raw)).None? <==>
      forall i :: 0 <= i < |Clean(raw)| ==> Clean(raw)[i]["Status"] == Text("paid")
    ensures ClassifierLabels(Clean(raw)).Some? ==>
      |ClassifierLabels(Clean(raw)).value| == |Clean(raw)| &&
      forall i :: 0 <= i < |Clean(raw)| ==>
        ClassifierLabels(Clean(raw)).value[i] in {0, 1} &&
        (ClassifierLabels(Clean(raw)).value[i] == 1 <==> Clean(raw)[i]["Status"] == Text("defaulted"))
  {
  }

  /** On a cleaned table the embedding label is the complement of the
      classifier label. */
  lemma LabelsComplement(raw: Table)
    requires ClassifierLabels(Clean(raw)).Some? && EmbeddingLabels(Clean(raw)).Some?
    ensures |EmbeddingLabels(Clean(raw)).value| == |ClassifierLabels(Clean(raw)).value| == |Clean(raw)|
    ensures forall i :: 0 <= i < |Clean(raw)| ==>
      EmbeddingLabels(Clean(raw)).value[i] == 1 - ClassifierLabels(Clean(raw)).value[i]
  {
  }
}
