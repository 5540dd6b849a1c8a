/**
 * The sanitization engine: the union of the contamination and membership
 * flags with a reason per flagged index, and one sanitization action
 * (remove, anonymize or rewrite) applied in place to every flagged row of the
 * corpus table, with an audit log entry per flagged row.
 */
module Sanitizer {
  import opened Wrappers
  import Words

  /** A pandas index label. */
  type Label = int

  /** A row of a flag table: its index label and its boolean flag column. */
  datatype FlagRow = FlagRow(index: Label, flag: bool)

  /** A row of the corpus table: its index label and its `segments` text. */
  datatype Row = Row(index: Label, segment: string)

  /** A row of the sanitization log: index, action applied, reason and the text before the action. */
  datatype LogEntry = LogEntry(index: Label, action: string, reason: string, originalText: string)

  /** `df.at[label, ...]` on a label the index lacks raises KeyError. */
  datatype SanitizeError = KeyError(index: Label)

  const CONTAMINATION := "contamination"
  const MEMBERSHIP := "membership"
  const UNKNOWN_REASON := "unknown"
  const PLACEHOLDER := "[REMOVED DUE TO PRIVACY RISK]"
  const REWRITE_SUFFIX := " [REWRITTEN]"

  /** The action `sanitize_data` applies when none is given. */
  const DEFAULT_ACTION := "remove"

  // ---------------------------------------------------------------------
  // aggregate_flags
  // ---------------------------------------------------------------------

  /** `set(df[df[flag]].index)`: the labels of the rows whose flag is true. */
  function FlaggedLabels(frame: seq<FlagRow>): (s: set<Label>)
    ensures forall k :: 0 <= k < |frame| && frame[k].flag ==> frame[k].index in s
    ensures forall l :: l in s ==> exists k :: 0 <= k < |frame| && frame[k].flag && frame[k].index == l
  {
    set r | r in frame && r.flag :: r.index
  }

  /** The sources that flagged an index, contamination before membership. */
  function Sources(byContamination: bool, byMembership: bool): seq<string> {
    (if byContamination then [CONTAMINATION] else []) + (if byMembership then [MEMBERSHIP] else [])
  }

  /** The reason recorded for an index: its sources joined by ", ". */
  function ReasonFor(byContamination: bool, byMembership: bool): (r: string)
    ensures r == "" <==> !byContamination && !byMembership
  {
    Words.JoinWith(", ", Sources(byContamination, byMembership))
  }

  /** The three reasons a flagged index can get, each naming exactly the sources that flagged it. */
  lemma ReasonCases()
    ensures ReasonFor(true, false) == "contamination"
    ensures ReasonFor(false, true) == "membership"
    ensures ReasonFor(true, true) == "contamination, membership"
  {
    assert Sources(true, true) == ["contamination", "membership"];
  }

  /**
   * aggregate_flags: the union of the two flagged label sets, and for every
   * label in it the reason listing the tables that flagged it.
   */
  method AggregateFlags(contamination: seq<FlagRow>, membership: seq<FlagRow>)
    returns (combined: set<Label>, flagReason: map<Label, string>)
    ensures combined == FlaggedLabels(contamination) + FlaggedLabels(membership)
    ensures flagReason.Keys == combined
    ensures forall l :: l in flagReason ==>
      flagReason[l] == ReasonFor(l in FlaggedLabels(contamination), l in FlaggedLabels(membership))
  {
    var contaminationIndices := FlaggedLabels(contamination);
    var membershipIndices := FlaggedLabels(membership);
    combined := contaminationIndices + membershipIndices;
    flagReason := map[];
    var todo := combined;
    while todo != {}
      invariant todo <= combined
      invariant flagReason.Keys == combined - todo
      invariant forall l :: l in flagReason ==>
        flagReason[l] == ReasonFor(l in contaminationIndices, l in membershipIndices)
      decreases |todo|
    {
      var idx :| idx in todo;
      var reasons: seq<string> := [];
      if idx in contaminationIndices {
        reasons := reasons + [CONTAMINATION];
      }
      if idx in membershipIndices {
        reasons := reasons + [MEMBERSHIP];
      }
      flagReason := flagReason[idx := Words.JoinWith(", ", reasons)];
      todo := todo - {idx};
    }
  }

  /** No index is counted twice: the union is no larger than the two flagged sets together. */
  lemma AggregateBound(contamination: seq<FlagRow>, membership: seq<FlagRow>)
    ensures |FlaggedLabels(contamination) + FlaggedLabels(membership)|
            <= |FlaggedLabels(contamination)| + |FlaggedLabels(membership)|
  {
    var c, m := FlaggedLabels(contamination), FlaggedLabels(membership);
    assert c + m == c + (m - c);
    assert |m - c| <= |m| by {
      assert m == (m - c) + (m * c);
    }
  }

  // ---------------------------------------------------------------------
  // The corpus table and its value-level operations
  // ---------------------------------------------------------------------

  /** Index labels are unique, as in the RangeIndex of a table read from CSV. */
  predicate UniqueLabels(rows: seq<Row>) {
    forall i, j :: 0 <= i < j < |rows| ==> rows[i].index != rows[j].index
  }

  /** The labels of the table's rows. */
  function LabelSet(rows: seq<Row>): set<Label> {
    set i | 0 <= i < |rows| :: rows[i].index
  }

  /** `df.at[lbl, 'segments']`: the text of the first row labelled `lbl`, or None for a missing label. */
  function Lookup(rows: seq<Row>, lbl: Label): (r: Option<string>)
    ensures r.None? <==> lbl !in LabelSet(rows)
  {
    if rows == [] then None
    else if rows[0].index == lbl then Some(rows[0].segment)
    else
      assert LabelSet(rows) == {rows[0].index} + LabelSet(rows[1..]) by {
        assert forall i :: 0 < i < |rows| ==> rows[i].index == rows[1..][i - 1].index;
      }
      Lookup(rows[1..], lbl)
  }

  /** With unique labels, looking up a row's label finds that row's text. */
  lemma {:induction false} LookupRow(rows: seq<Row>, i: nat)
    requires UniqueLabels(rows) && i < |rows|
    ensures Lookup(rows, rows[i].index) == Some(rows[i].segment)
  {
    if i > 0 {
      LookupRow(rows[1..], i - 1);
    }
  }

  /** The rows whose label is not in `f`, in their original order (`df.drop`). */
  function Without(rows: seq<Row>, f: set<Label>): (r: seq<Row>)
    ensures |r| <= |rows|
  {
    if rows == [] then []
    else (if rows[0].index in f then [] else [rows[0]]) + Without(rows[1..], f)
  }

  /** Every row of `rows` with a label in `f` gets its text replaced by `text`. */
  function Overwritten(rows: seq<Row>, f: set<Label>, text: string): (r: seq<Row>)
    ensures |r| == |rows|
    ensures forall i :: 0 <= i < |r| ==> r[i].index == rows[i].index
    ensures forall i :: 0 <= i < |r| && rows[i].index !in f ==> r[i] == rows[i]
  {
    seq(|rows|, i requires 0 <= i < |rows| =>
      if rows[i].index in f then rows[i].(segment := text) else rows[i])
  }

  /** Every row of `rows` with a label in `f` gets the rewrite marker appended to its text. */
  function Suffixed(rows: seq<Row>, f: set<Label>): (r: seq<Row>)
    ensures |r| == |rows|
    ensures forall i :: 0 <= i < |r| ==> r[i].index == rows[i].index
    ensures forall i :: 0 <= i < |r| && rows[i].index !in f ==> r[i] == rows[i]
  {
    seq(|rows|, i requires 0 <= i < |rows| =>
      if rows[i].index in f then rows[i].(segment := rows[i].segment + REWRITE_SUFFIX) else rows[i])
  }

  predicate IsValidAction(action: string) {
    action == "remove" || action == "anonymize" || action == "rewrite"
  }

  /** The action name written into the log. */
  function PastTense(action: string): string {
    if action == "remove" then "removed"
    else if action == "anonymize" then "anonymized"
    else if action == "rewrite" then "rewritten"
    else action
  }

  /** The table after `action` has been applied to every row whose label is in `f`. */
  function Sanitized(rows: seq<Row>, f: set<Label>, action: string): (r: seq<Row>)
    ensures |r| <= |rows|
    ensures action != "remove" ==> |r| == |rows|
  {
    if action == "remove" then Without(rows, f)
    else if action == "anonymize" then Overwritten(rows, f, PLACEHOLDER)
    else if action == "rewrite" then Suffixed(rows, f)
    else rows
  }

  /** `df.reset_index(drop=True)`: the same rows, labelled 0 .. n-1. */
  function Renumbered(rows: seq<Row>): (r: seq<Row>)
    ensures |r| == |rows| && UniqueLabels(r)
    ensures forall i :: 0 <= i < |r| ==> r[i].index == i && r[i].segment == rows[i].segment
  {
    seq(|rows|, i requires 0 <= i < |rows| => Row(i, rows[i].segment))
  }

  /** The set of the labels listed in `ls`. */
  function Elems(ls: seq<Label>): set<Label> {
    set i | 0 <= i < |ls| :: ls[i]
  }

  predicate Distinct(ls: seq<Label>) {
    forall i, j :: 0 <= i < j < |ls| ==> ls[i] != ls[j]
  }

  /** `flag_reason.get(lbl, "unknown")`. */
  function ReasonOf(flagReason: map<Label, string>, lbl: Label): string {
    if lbl in flagReason then flagReason[lbl] else UNKNOWN_REASON
  }

  /** The position of the first listed label that the table lacks, if any. */
  function FirstMissing(rows: seq<Row>, flagged: seq<Label>): (r: Option<nat>)
    ensures r.Some? ==> r.value < |flagged| && flagged[r.value] !in LabelSet(rows)
    ensures r.Some? ==> forall j :: 0 <= j < r.value ==> flagged[j] in LabelSet(rows)
    ensures r.None? ==> forall j :: 0 <= j < |flagged| ==> flagged[j] in LabelSet(rows)
  {
    if flagged == [] then None
    else if flagged[0] !in LabelSet(rows) then Some(0)
    else
      match FirstMissing(rows, flagged[1..])
      case None => None
      case Some(k) => Some(k + 1)
  }

  /**
   * The log of a run that processed the labels `flagged`, in order, against
   * the table `rows` as it was before the run: one entry per label holding the
   * text the label had before the run; no entry at all for an unrecognised action.
   */
  function ExpectedLog(rows: seq<Row>, flagged: seq<Label>, flagReason: map<Label, string>, action: string): (log: seq<LogEntry>)
    requires forall j :: 0 <= j < |flagged| ==> flagged[j] in LabelSet(rows)
    ensures |log| == if IsValidAction(action) then |flagged| else 0
    ensures forall j :: 0 <= j < |log| ==> log[j].index == flagged[j] && log[j].action == PastTense(action)
  {
    if !IsValidAction(action) then []
    else
      seq(|flagged|, j requires 0 <= j < |flagged| =>
        LogEntry(flagged[j], PastTense(action), ReasonOf(flagReason, flagged[j]), Lookup(rows, flagged[j]).value))
  }

  // ---------------------------------------------------------------------
  // Properties of the value-level operations
  // ---------------------------------------------------------------------

  /** Removing the labels of `f` and then those of `g` removes the labels of `f + g`. */
  lemma {:induction false} WithoutWithout(rows: seq<Row>, f: set<Label>, g: set<Label>)
    ensures Without(Without(rows, f), g) == Without(rows, f + g)
  {
    if rows != [] {
      WithoutWithout(rows[1..], f, g);
      var head := if rows[0].index in f then [] else [rows[0]];
      assert Without(rows, f) == head + Without(rows[1..], f);
      WithoutAppend(head, Without(rows[1..], f), g);
    }
  }

  lemma SeqAssoc<T>(x: seq<T>, y: seq<T>, z: seq<T>)
    ensures x + (y + z) == (x + y) + z
  {
  }

  lemma {:induction false} WithoutAppend(a: seq<Row>, b: seq<Row>, f: set<Label>)
    ensures Without(a + b, f) == Without(a, f) + Without(b, f)
  {
    if a != [] {
      var head := if a[0].index in f then [] else [a[0]];
      assert (a + b)[0] == a[0] && (a + b)[1..] == a[1..] + b;
      assert Without(a + b, f) == head + Without(a[1..] + b, f);
      WithoutAppend(a[1..], b, f);
      assert Without(a, f) == head + Without(a[1..], f);
      SeqAssoc(head, Without(a[1..], f), Without(b, f));
    } else {
      assert a + b == b;
    }
  }

  /** remove keeps exactly the rows whose label is not flagged. */
  lemma {:induction false} WithoutMembers(rows: seq<Row>, f: set<Label>)
    ensures forall r :: r in Without(rows, f) <==> r in rows && r.index !in f
  {
    if rows != [] {
      WithoutMembers(rows[1..], f);
      assert rows == [rows[0]] + rows[1..];
    }
  }

  /** remove leaves n - |flagged labels present in the table| rows. */
  lemma {:induction false} WithoutCount(rows: seq<Row>, f: set<Label>)
    requires UniqueLabels(rows)
    ensures |Without(rows, f)| == |rows| - |f * LabelSet(rows)|
  {
    if rows != [] {
      var rest, h := rows[1..], rows[0].index;
      WithoutCount(rest, f);
      LabelSetCons(rows);
      IntersectCons(f, LabelSet(rest), h);
      assert Without(rows, f) == (if h in f then [] else [rows[0]]) + Without(rest, f);
    }
  }

  /** Adding a new label to a label set adds to its intersection with `f` exactly when the label is in `f`. */
  lemma IntersectCons(f: set<Label>, labels: set<Label>, h: Label)
    requires h !in labels
    ensures |f * ({h} + labels)| == |f * labels| + (if h in f then 1 else 0)
  {
    if h in f {
      assert f * ({h} + labels) == {h} + f * labels;
    } else {
      assert f * ({h} + labels) == f * labels;
    }
  }

  lemma LabelSetCons(rows: seq<Row>)
    requires UniqueLabels(rows) && rows != []
    ensures LabelSet(rows) == {rows[0].index} + LabelSet(rows[1..])
    ensures rows[0].index !in LabelSet(rows[1..])
  {
    var rest := rows[1..];
    assert forall i :: 0 < i < |rows| ==> rows[i].index == rest[i - 1].index;
    assert forall i :: 0 <= i < |rest| ==> rest[i].index == rows[i + 1].index;
  }

  /** Processing no label leaves the table as it was, whatever the action. */
  lemma {:induction false} SanitizedNothing(rows: seq<Row>, action: string)
    ensures Sanitized(rows, {}, action) == rows
  {
    if action == "remove" {
      WithoutNothing(rows);
    }
  }

  lemma {:induction false} WithoutNothing(rows: seq<Row>)
    ensures Without(rows, {}) == rows
  {
    if rows != [] {
      WithoutNothing(rows[1..]);
      assert rows == [rows[0]] + rows[1..];
    }
  }

  /** Under every action, an unflagged row is still in the table with its text unchanged. */
  lemma UnflaggedUnchanged(rows: seq<Row>, f: set<Label>, action: string, i: nat)
    requires UniqueLabels(rows) && i < |rows| && rows[i].index !in f
    ensures rows[i] in Sanitized(rows, f, action)
    ensures action != "remove" ==> |Sanitized(rows, f, action)| == |rows| && Sanitized(rows, f, action)[i] == rows[i]
  {
    if action == "remove" {
      WithoutMembers(rows, f);
    } else {
      assert Sanitized(rows, f, action)[i] == rows[i];
    }
  }

  /** anonymize overwrites exactly the flagged rows with the placeholder, keeping the row count. */
  lemma AnonymizeText(rows: seq<Row>, f: set<Label>)
    ensures var out := Sanitized(rows, f, "anonymize");
      && |out| == |rows|
      && forall i :: 0 <= i < |rows| ==>
           out[i].index == rows[i].index
           && out[i].segment == (if rows[i].index in f then PLACEHOLDER else rows[i].segment)
  {
  }

  /** rewrite keeps the row count and labels; each flagged row gets the marker appended once, and other rows keep their text. */
  lemma RewriteText(rows: seq<Row>, f: set<Label>)
    ensures var out := Sanitized(rows, f, "rewrite");
      && |out| == |rows|
      && forall i :: 0 <= i < |rows| ==>
           out[i].index == rows[i].index
           && out[i].segment == (if rows[i].index in f then rows[i].segment + REWRITE_SUFFIX else rows[i].segment)
  {
  }

  /** Applying anonymize a second time changes nothing. */
  lemma AnonymizeIdempotent(rows: seq<Row>, f: set<Label>)
    ensures Sanitized(Sanitized(rows, f, "anonymize"), f, "anonymize") == Sanitized(rows, f, "anonymize")
  {
  }

  /** Applying rewrite a second time appends the marker again: rewrite is not idempotent. */
  lemma RewriteTwice(rows: seq<Row>, f: set<Label>, i: nat)
    requires i < |rows| && rows[i].index in f
    ensures Sanitized(Sanitized(rows, f, "rewrite"), f, "rewrite")[i].segment
            == rows[i].segment + REWRITE_SUFFIX + REWRITE_SUFFIX
    ensures Sanitized(Sanitized(rows, f, "rewrite"), f, "rewrite") != Sanitized(rows, f, "rewrite")
  {
    var once := Sanitized(rows, f, "rewrite");
    var twice := Sanitized(once, f, "rewrite");
    assert |twice[i].segment| > |once[i].segment|;
  }

  /** An unrecognised action leaves the table as it is. */
  lemma InvalidActionNoChange(rows: seq<Row>, f: set<Label>, action: string)
    requires !IsValidAction(action)
    ensures Sanitized(rows, f, action) == rows
  {
  }

  /** Labels outside the processed set look up as they did before the run. */
  lemma {:induction false} LookupUntouched(rows: seq<Row>, f: set<Label>, action: string, l: Label)
    requires UniqueLabels(rows) && l !in f
    ensures Lookup(Sanitized(rows, f, action), l) == Lookup(rows, l)
  {
    var out := Sanitized(rows, f, action);
    if action == "remove" {
      WithoutLookup(rows, f, l);
    } else if action == "anonymize" || action == "rewrite" {
      MappedLookup(rows, out, l);
    }
  }

  lemma {:induction false} WithoutLookup(rows: seq<Row>, f: set<Label>, l: Label)
    requires l !in f
    ensures Lookup(Without(rows, f), l) == Lookup(rows, l)
  {
    if rows != [] {
      WithoutLookup(rows[1..], f, l);
      var out := Without(rows, f);
      if rows[0].index !in f {
        assert out == [rows[0]] + Without(rows[1..], f);
        assert out[0] == rows[0] && out[1..] == Without(rows[1..], f);
      } else {
        assert out == Without(rows[1..], f);
      }
    }
  }

  /** Two tables with the same labels that agree on the row labelled `l` look `l` up alike. */
  lemma {:induction false} MappedLookup(rows: seq<Row>, out: seq<Row>, l: Label)
    requires |out| == |rows|
    requires forall i :: 0 <= i < |rows| ==> out[i].index == rows[i].index
    requires forall i :: 0 <= i < |rows| && rows[i].index == l ==> out[i] == rows[i]
    ensures Lookup(out, l) == Lookup(rows, l)
  {
    if rows != [] {
      MappedLookup(rows[1..], out[1..], l);
    }
  }

  lemma SanitizedUnique(rows: seq<Row>, f: set<Label>, action: string)
    requires UniqueLabels(rows)
    ensures UniqueLabels(Sanitized(rows, f, action))
  {
    if action == "remove" {
      WithoutUnique(rows, f);
    }
  }

  lemma {:induction false} WithoutUnique(rows: seq<Row>, f: set<Label>)
    requires UniqueLabels(rows)
    ensures UniqueLabels(Without(rows, f))
  {
    if rows != [] {
      WithoutUnique(rows[1..], f);
      WithoutMembers(rows[1..], f);
      var out := Without(rows, f);
      if rows[0].index !in f {
        forall j | 0 < j < |out| ensures out[0].index != out[j].index {
          assert out[j] in Without(rows[1..], f);
        }
      }
    }
  }

  /** One more processed label: the closed form of the table advances by one step. */
  lemma SanitizedStep(rows: seq<Row>, done: set<Label>, l: Label, action: string)
    requires UniqueLabels(rows) && l !in done && l in LabelSet(rows)
    ensures var cur := Sanitized(rows, done, action);
      && (action == "remove" ==> Without(cur, {l}) == Sanitized(rows, done + {l}, action))
      && (action == "anonymize" ==> Overwritten(cur, {l}, PLACEHOLDER) == Sanitized(rows, done + {l}, action))
      && (action == "rewrite" ==>
            Overwritten(cur, {l}, Lookup(rows, l).value + REWRITE_SUFFIX) == Sanitized(rows, done + {l}, action))
  {
    var cur := Sanitized(rows, done, action);
    if action == "remove" {
      WithoutWithout(rows, done, {l});
    } else if action == "rewrite" {
      forall i | 0 <= i < |rows| && rows[i].index == l ensures rows[i].segment == Lookup(rows, l).value {
        LookupRow(rows, i);
      }
    }
  }

  // ---------------------------------------------------------------------
  // sanitize_data: the in-place run over the table
  // ---------------------------------------------------------------------

  /** The pandas table the run mutates in place: its rows in index order. */
  class Table {
    var rows: seq<Row>

    ghost predicate Valid()
      reads this
    {
      UniqueLabels(rows)
    }

    constructor (rows: seq<Row>)
      requires UniqueLabels(rows)
      ensures Valid() && this.rows == rows
    {
      this.rows := rows;
    }

    /** `df.drop(lbl, inplace=True)`. */
    method Drop(lbl: Label)
      requires Valid() && lbl in LabelSet(rows)
      modifies this
      ensures Valid()
      ensures rows == Without(old(rows), {lbl})
    {
      WithoutUnique(rows, {lbl});
      rows := Without(rows, {lbl});
    }

    /** `df.at[lbl, 'segments'] = text`. */
    method SetSegment(lbl: Label, text: string)
      requires Valid() && lbl in LabelSet(rows)
      modifies this
      ensures Valid()
      ensures rows == Overwritten(old(rows), {lbl}, text)
    {
      rows := Overwritten(rows, {lbl}, text);
    }
  }

  /**
   * The body of one `sanitize_data` iteration once the label's text has been
   * read: the action's change to the table and the log entries it produces.
   */
  method ApplyAction(df: Table, idx: Label, reason: string, originalText: string, action: string)
    returns (entries: seq<LogEntry>)
    requires df.Valid() && idx in LabelSet(df.rows)
    modifies df
    ensures df.Valid()
    ensures action == "remove" ==> df.rows == Without(old(df.rows), {idx})
    ensures action == "anonymize" ==> df.rows == Overwritten(old(df.rows), {idx}, PLACEHOLDER)
    ensures action == "rewrite" ==> df.rows == Overwritten(old(df.rows), {idx}, originalText + REWRITE_SUFFIX)
    ensures !IsValidAction(action) ==> df.rows == old(df.rows)
    ensures entries == if IsValidAction(action) then [LogEntry(idx, PastTense(action), reason, originalText)] else []
  {
    entries := [];
    if action == "remove" {
      df.Drop(idx);
      entries := [LogEntry(idx, "removed", reason, originalText)];
    } else if action == "anonymize" {
      df.SetSegment(idx, PLACEHOLDER);
      entries := [LogEntry(idx, "anonymized", reason, originalText)];
    } else if action == "rewrite" {
      df.SetSegment(idx, originalText + REWRITE_SUFFIX);
      entries := [LogEntry(idx, "rewritten", reason, originalText)];
    }
  }

  /**
   * sanitize_data: visits the flagged labels in iteration order, reads each
   * label's text, applies `action` to the table in place and logs the text
   * read; at the end returns the table renumbered 0 .. n-1 and the log.  A
   * flagged label missing from the table raises KeyError when it is reached,
   * leaving the table with the actions already applied.
   */
  method SanitizeData(df: Table, flagged: seq<Label>, flagReason: map<Label, string>, action: string := DEFAULT_ACTION)
    returns (result: Result<(seq<Row>, seq<LogEntry>), SanitizeError>)
    requires df.Valid() && Distinct(flagged)
    modifies df
    ensures df.Valid()
    ensures result.Ok? <==> FirstMissing(old(df.rows), flagged).None?
    ensures result.Ok? ==>
      && df.rows == Sanitized(old(df.rows), Elems(flagged), action)
      && result.value.0 == Renumbered(df.rows)
      && result.value.1 == ExpectedLog(old(df.rows), flagged, flagReason, action)
    ensures result.Err? ==>
      var k := FirstMissing(old(df.rows), flagged).value;
      && result.error == KeyError(flagged[k])
      && df.rows == Sanitized(old(df.rows), Elems(flagged[..k]), action)
  {
    ghost var rows0 := df.rows;
    var logEntries: seq<LogEntry> := [];
    var k := 0;
    assert Elems(flagged[..0]) == {};
    SanitizedNothing(rows0, action);
    while k < |flagged|
      invariant 0 <= k <= |flagged| && df.Valid()
      invariant forall j :: 0 <= j < k ==> flagged[j] in LabelSet(rows0)
      invariant df.rows == Sanitized(rows0, Elems(flagged[..k]), action)
      invariant logEntries == ExpectedLog(rows0, flagged[..k], flagReason, action)
    {
      var idx := flagged[k];
      ghost var done := Elems(flagged[..k]);
      assert idx !in done;
      LookupUntouched(rows0, done, action, idx);
      var originalText := Lookup(df.rows, idx);
      if originalText.None? {
        assert FirstMissing(rows0, flagged) == Some(k) by {
          FirstMissingAt(rows0, flagged, k);
        }
        return Err(KeyError(idx));
      }
      var reason := ReasonOf(flagReason, idx);
      ExpectedLogStep(rows0, flagged, k, flagReason, action);
      SanitizedStep(rows0, done, idx, action);
      assert Elems(flagged[..k + 1]) == done + {idx} by {
        assert flagged[..k + 1] == flagged[..k] + [idx];
      }
      var entries := ApplyAction(df, idx, reason, originalText.value, action);
      logEntries := logEntries + entries;
      k := k + 1;
    }
    assert flagged[..k] == flagged;
    assert FirstMissing(rows0, flagged).None? by {
      FirstMissingAt(rows0, flagged, |flagged|);
    }
    result := Ok((Renumbered(df.rows), logEntries));
  }

  /** One more visited label adds its one entry to the log, for a recognised action. */
  lemma ExpectedLogStep(rows: seq<Row>, flagged: seq<Label>, k: nat, flagReason: map<Label, string>, action: string)
    requires k < |flagged|
    requires forall j :: 0 <= j <= k ==> flagged[j] in LabelSet(rows)
    ensures ExpectedLog(rows, flagged[..k + 1], flagReason, action)
         == ExpectedLog(rows, flagged[..k], flagReason, action)
            + (if IsValidAction(action)
               then [LogEntry(flagged[k], PastTense(action), ReasonOf(flagReason, flagged[k]), Lookup(rows, flagged[k]).value)]
               else [])
  {
    if IsValidAction(action) {
      var f0, f1 := flagged[..k], flagged[..k + 1];
      var l0, l1 := ExpectedLog(rows, f0, flagReason, action), ExpectedLog(rows, f1, flagReason, action);
      var e := LogEntry(flagged[k], PastTense(action), ReasonOf(flagReason, flagged[k]), Lookup(rows, flagged[k]).value);
      assert |l1| == |l0 + [e]|;
      forall j | 0 <= j < k + 1 ensures l1[j] == (l0 + [e])[j] {
        assert f1[j] == flagged[j];
        if j < k {
          assert f0[j] == flagged[j];
        }
      }
    }
  }

  /** When the first `k` labels are present, the first missing one (if any) is at or after `k`. */
  lemma {:induction false} FirstMissingAt(rows: seq<Row>, flagged: seq<Label>, k: nat)
    requires k <= |flagged|
    requires forall j :: 0 <= j < k ==> flagged[j] in LabelSet(rows)
    ensures k < |flagged| && flagged[k] !in LabelSet(rows) ==> FirstMissing(rows, flagged) == Some(k)
    ensures k == |flagged| ==> FirstMissing(rows, flagged).None?
  {
    if k > 0 && flagged != [] {
      FirstMissingAt(rows, flagged[1..], k - 1);
    }
  }
}
