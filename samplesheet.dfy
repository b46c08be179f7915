/**
 * The samplesheet validator of bin/check_samplesheet_multi.py.
 *
 * The sheet arrives as its lines (the header line first). The validator
 * either rejects it with the first problem it meets, naming the reason and
 * the offending line, or produces the two-line feature-type presence
 * summary. A rejected sheet produces no summary at all: `Err` carries no
 * output lines.
 */
module Samplesheet {
  import opened Wrappers
  import opened Text

  /** The required leading header columns, in order. */
  const Header: seq<string> := ["gem", "fastq_id", "fastqs", "feature_types"]

  /** The minimum number of populated fields in a row. */
  const MinCols: nat := 4

  /** The accepted `feature_types` values, also the column order of the summary. */
  const FeatureTypes: seq<string> := ["gex", "fb", "vdj-b", "vdj-t"]

  /** Why a sheet is rejected; each row reason has its own message text. */
  datatype Reason =
    | HeaderMismatch(header: seq<string>)
    | TooFewColumns
    | TooFewPopulated
    | MissingGem
    | MissingFastqId
    | MissingFastqs
    | MissingFeatureTypes
    | InvalidFeatureType
    | DuplicateRow
    | DuplicateFastqId

  /** The summary's lines, or the reason and the line that stopped the run. */
  datatype Outcome = Ok(output: seq<string>) | Err(reason: Reason, line: string)

  /** The first line of the file; an empty file reads as one empty line. */
  function FirstLine(lines: seq<string>): string
  {
    if |lines| == 0 then "" else lines[0]
  }

  /** The lines after the header. */
  function Rows(lines: seq<string>): seq<string>
  {
    if |lines| == 0 then [] else lines[1..]
  }

  /** Header fields: the stripped line split on commas, each field quote-stripped only. */
  function HeaderFields(line: string): (h: seq<string>)
    ensures |h| == Count(Strip(line), ',') + 1
  {
    var parts := Split(Strip(line), ',');
    seq(|parts|, k requires 0 <= k < |parts| => StripChar(parts[k], '"'))
  }

  /** Python's `header[:len(HEADER)] == HEADER`; a shorter slice never matches. */
  predicate HeaderOk(h: seq<string>)
  {
    (if |h| < |Header| then h else h[..|Header|]) == Header
  }

  /** A header is accepted iff it has at least four fields and those are the required columns. */
  lemma HeaderOkIff(h: seq<string>)
    ensures HeaderOk(h) <==> |h| >= |Header| && h[..|Header|] == Header
  {
    if |h| < |Header| {
      assert |h| != |Header|;
    }
  }

  /** Row fields: the stripped line split on commas, each field whitespace- then quote-stripped. */
  function RowFields(line: string): (f: seq<string>)
    ensures |f| == Count(Strip(line), ',') + 1
  {
    var parts := Split(Strip(line), ',');
    seq(|parts|, k requires 0 <= k < |parts| => StripChar(Strip(parts[k]), '"'))
  }

  /**
   * Every character of every field is a visible ASCII character other
   * than a comma or a double quote.
   */
  predicate CleanFields(fields: seq<string>)
  {
    forall k, i :: 0 <= k < |fields| && 0 <= i < |fields[k]| ==>
      '!' <= fields[k][i] <= '~' && fields[k][i] != ',' && fields[k][i] != '"'
  }

  /** Joining clean fields with commas and splitting the result back is lossless. */
  lemma CleanJoinSplits(fields: seq<string>)
    requires |fields| >= 1 && CleanFields(fields)
    ensures Strip(Join(fields, ',')) == Join(fields, ',')
    ensures Split(Join(fields, ','), ',') == fields
    ensures forall k :: 0 <= k < |fields| ==> Strip(fields[k]) == fields[k] && StripChar(fields[k], '"') == fields[k]
  {
    JoinAvoids(fields, ',', Whitespace);
    StripByClean(Join(fields, ','), Whitespace);
    forall k | 0 <= k < |fields|
      ensures ',' !in fields[k]
      ensures Strip(fields[k]) == fields[k] && StripChar(fields[k], '"') == fields[k]
    {
      StripByClean(fields[k], Whitespace);
      StripByClean(fields[k], Only('"'));
    }
    SplitJoin(fields, ',');
  }

  /** A row line written from clean fields reads back as those fields. */
  lemma RowFieldsJoin(fields: seq<string>)
    requires |fields| >= 1 && CleanFields(fields)
    ensures RowFields(Join(fields, ',')) == fields
  {
    CleanJoinSplits(fields);
  }

  /** A header line written from clean fields reads back as those fields. */
  lemma HeaderFieldsJoin(fields: seq<string>)
    requires |fields| >= 1 && CleanFields(fields)
    ensures HeaderFields(Join(fields, ',')) == fields
  {
    CleanJoinSplits(fields);
  }

  /** Number of non-empty fields, over all of them. */
  function NumPopulated(fields: seq<string>): (n: nat)
    ensures n <= |fields|
  {
    if |fields| == 0 then 0
    else (if fields[0] != "" then 1 else 0) + NumPopulated(fields[1..])
  }

  /** Each row split into fields as the validator does. */
  function ParseRows(rows: seq<string>): (sheet: seq<seq<string>>)
    ensures |sheet| == |rows|
  {
    seq(|rows|, i requires 0 <= i < |rows| => RowFields(rows[i]))
  }

  /** The k-th field, or "" when the row is too short to have one. */
  function Field(fields: seq<string>, k: nat): string
  {
    if k < |fields| then fields[k] else ""
  }

  /** The row's `fastq_id`. */
  function IdOf(fields: seq<string>): string
  {
    Field(fields, 1)
  }

  /** The row's `feature_types`. */
  function FeatureOf(fields: seq<string>): string
  {
    Field(fields, 3)
  }

  /** The row's `[gem, fastqs, feature_types]`, the value stored under its `fastq_id`. */
  function InfoOf(fields: seq<string>): seq<string>
  {
    [Field(fields, 0), Field(fields, 2), Field(fields, 3)]
  }

  /**
   * The checks one row must pass on its own, in the order the validator
   * makes them; the first that fails is the one reported.
   */
  function RowError(f: seq<string>): (e: Option<Reason>)
    ensures e.Some? ==> !e.value.HeaderMismatch?
  {
    if |f| < |Header| then Some(TooFewColumns)
    else if NumPopulated(f) < MinCols then Some(TooFewPopulated)
    else if f[0] == "" then Some(MissingGem)
    else if f[1] == "" then Some(MissingFastqId)
    else if f[2] == "" then Some(MissingFastqs)
    else if f[3] == "" then Some(MissingFeatureTypes)
    else if f[3] !in FeatureTypes then Some(InvalidFeatureType)
    else None
  }

  /** Row i fails on its own, or repeats the `fastq_id` of an earlier row. */
  ghost predicate Bad(sheet: seq<seq<string>>, i: int)
    requires 0 <= i < |sheet|
  {
    || RowError(sheet[i]).Some?
    || exists j :: 0 <= j < i && IdOf(sheet[j]) == IdOf(sheet[i])
  }

  /** Row i is the first bad row. */
  ghost predicate FirstBad(sheet: seq<seq<string>>, i: int)
  {
    && 0 <= i < |sheet|
    && Bad(sheet, i)
    && forall k :: 0 <= k < i ==> !Bad(sheet, k)
  }

  /**
   * The reason reported for a bad row: its own failure, else "duplicate
   * rows" when an earlier row with its `fastq_id` has the same
   * `[gem, fastqs, feature_types]`, else "duplicate fastq_id entries".
   */
  ghost function ReasonAt(sheet: seq<seq<string>>, i: int): Reason
    requires 0 <= i < |sheet|
  {
    match RowError(sheet[i])
    case Some(e) => e
    case None =>
      if exists j :: 0 <= j < i && IdOf(sheet[j]) == IdOf(sheet[i]) && InfoOf(sheet[j]) == InfoOf(sheet[i])
      then DuplicateRow
      else DuplicateFastqId
  }

  /** Some row has feature type t. */
  ghost predicate TypeSeen(sheet: seq<seq<string>>, t: string)
  {
    exists i :: 0 <= i < |sheet| && FeatureOf(sheet[i]) == t
  }

  /** The presence vector: "1" at position k iff the k-th feature type occurs in some row. */
  ghost function PresenceBits(sheet: seq<seq<string>>): seq<string>
  {
    seq(|FeatureTypes|, k requires 0 <= k < |FeatureTypes| =>
      if TypeSeen(sheet, FeatureTypes[k]) then "1" else "0")
  }

  /** The presence vector of a list of collected feature types. */
  ghost function Presence(types: seq<string>): seq<string>
  {
    seq(|FeatureTypes|, k requires 0 <= k < |FeatureTypes| =>
      if FeatureTypes[k] in types then "1" else "0")
  }

  /** The summary's first line. */
  lemma FeatureTypesLine()
    ensures Join(FeatureTypes, ',') == "gex,fb,vdj-b,vdj-t"
  {
  }

  /**
   * The two output lines: the feature types in their fixed order, then the
   * presence vector of the collected types in that same order.
   */
  method Summary(featureTypeList: seq<string>) returns (output: seq<string>)
    ensures output == ["gex,fb,vdj-b,vdj-t", Join(Presence(featureTypeList), ',')]
  {
    var ftypes := FeatureTypes;
    var seen := set t | t in featureTypeList;
    var exist: seq<string> := [];
    for k := 0 to |ftypes|
      invariant |exist| == k
      invariant forall j :: 0 <= j < k ==> exist[j] == Presence(featureTypeList)[j]
    {
      if ftypes[k] in seen {
        exist := exist + ["1"];
      } else {
        exist := exist + ["0"];
      }
    }
    assert exist == Presence(featureTypeList);
    FeatureTypesLine();
    output := [Join(ftypes, ','), Join(exist, ',')];
  }

  /** The `fastq_id`s of the first n rows. */
  ghost function IdsUpTo(sheet: seq<seq<string>>, n: int): set<string>
    requires 0 <= n <= |sheet|
  {
    if n == 0 then {} else IdsUpTo(sheet, n - 1) + {IdOf(sheet[n - 1])}
  }

  /** An id is among the first n rows' ids iff one of those rows carries it. */
  lemma {:induction false} IdsUpToMember(sheet: seq<seq<string>>, n: int, id: string)
    requires 0 <= n <= |sheet|
    ensures id in IdsUpTo(sheet, n) <==> exists k :: 0 <= k < n && IdOf(sheet[k]) == id
  {
    if n > 0 {
      IdsUpToMember(sheet, n - 1, id);
    }
  }

  /**
   * The state of the validator after accepting the first n rows: none of
   * them is bad, the mapping has one single-entry list per row under its
   * `fastq_id`, and the feature-type list holds the rows' types in order.
   */
  ghost predicate Scanned(sheet: seq<seq<string>>, n: int, m: map<string, seq<seq<string>>>, types: seq<string>)
  {
    && 0 <= n <= |sheet|
    && (forall k :: 0 <= k < n ==> !Bad(sheet, k))
    && m.Keys == IdsUpTo(sheet, n)
    && |m| == n
    && (forall k :: 0 <= k < n ==> IdOf(sheet[k]) in m && m[IdOf(sheet[k])] == [InfoOf(sheet[k])])
    && |types| == n
    && (forall k :: 0 <= k < n ==> types[k] == FeatureOf(sheet[k]))
  }

  /** Accepting a good row with a new `fastq_id` extends the scanned prefix by one. */
  lemma {:induction false} ScanAccept(sheet: seq<seq<string>>, n: int, m: map<string, seq<seq<string>>>, types: seq<string>)
    requires Scanned(sheet, n, m, types) && n < |sheet|
    requires RowError(sheet[n]).None? && IdOf(sheet[n]) !in m
    ensures Scanned(sheet, n + 1, m[IdOf(sheet[n]) := [InfoOf(sheet[n])]], types + [FeatureOf(sheet[n])])
  {
    IdsUpToMember(sheet, n, IdOf(sheet[n]));
    assert !Bad(sheet, n);
  }

  /**
   * A good row whose `fastq_id` is already in the mapping is the first bad
   * row; it is an exact duplicate iff its triple is the one stored.
   */
  lemma {:induction false} ScanDuplicate(sheet: seq<seq<string>>, n: int, m: map<string, seq<seq<string>>>, types: seq<string>)
    requires Scanned(sheet, n, m, types) && n < |sheet|
    requires RowError(sheet[n]).None? && IdOf(sheet[n]) in m
    ensures FirstBad(sheet, n)
    ensures ReasonAt(sheet, n) == if InfoOf(sheet[n]) in m[IdOf(sheet[n])] then DuplicateRow else DuplicateFastqId
  {
    IdsUpToMember(sheet, n, IdOf(sheet[n]));
    var j :| 0 <= j < n && IdOf(sheet[j]) == IdOf(sheet[n]);
    assert m[IdOf(sheet[n])] == [InfoOf(sheet[j])];
    if exists k :: 0 <= k < n && IdOf(sheet[k]) == IdOf(sheet[n]) && InfoOf(sheet[k]) == InfoOf(sheet[n]) {
      var k :| 0 <= k < n && IdOf(sheet[k]) == IdOf(sheet[n]) && InfoOf(sheet[k]) == InfoOf(sheet[n]);
      assert m[IdOf(sheet[k])] == [InfoOf(sheet[k])];
    }
  }

  /** After the last row, the dictionary maps each row. */
  lemma {:induction false} ScanDone(sheet: seq<seq<string>>, m: map<string, seq<seq<string>>>, types: seq<string>)
    requires Scanned(sheet, |sheet|, m, types)
    ensures MapsEachRow(sheet, m)
  {
    forall id ensures id in m.Keys <==> id in set i | 0 <= i < |sheet| :: IdOf(sheet[i]) {
      IdsUpToMember(sheet, |sheet|, id);
    }
  }

  /** After the last row, the presence vector of the collected types is the one over the rows. */
  lemma {:induction false} ScanPresence(sheet: seq<seq<string>>, m: map<string, seq<seq<string>>>, types: seq<string>)
    requires Scanned(sheet, |sheet|, m, types)
    ensures Presence(types) == PresenceBits(sheet)
  {
    forall k | 0 <= k < |FeatureTypes|
      ensures Presence(types)[k] == PresenceBits(sheet)[k]
    {
      if TypeSeen(sheet, FeatureTypes[k]) {
        var j :| 0 <= j < |sheet| && FeatureOf(sheet[j]) == FeatureTypes[k];
        assert types[j] == FeatureTypes[k];
      }
    }
  }

  /** The dictionary of an accepted sheet: one single-entry list per row, under the row's `fastq_id`. */
  ghost predicate MapsEachRow(sheet: seq<seq<string>>, m: map<string, seq<seq<string>>>)
  {
    && m.Keys == (set i | 0 <= i < |sheet| :: IdOf(sheet[i]))
    && |m| == |sheet|
    && forall i :: 0 <= i < |sheet| ==> IdOf(sheet[i]) in m && m[IdOf(sheet[i])] == [InfoOf(sheet[i])]
  }

  /**
   * The verdict on the rows of a sheet whose header was accepted: the
   * sheet is accepted iff no row is bad; a rejection reports the first bad
   * row, with its reason and raw line; an acceptance outputs the
   * feature-type line and the presence vector, and the dictionary maps
   * each row.
   */
  ghost predicate RowsVerdict(rows: seq<string>, r: Outcome, m: map<string, seq<seq<string>>>)
  {
    var sheet := ParseRows(rows);
    && (r.Ok? <==> forall i :: 0 <= i < |sheet| ==> !Bad(sheet, i))
    && (r.Err? ==> exists i :: FirstBad(sheet, i) && r == Err(ReasonAt(sheet, i), rows[i]))
    && (r.Ok? ==> r.output == ["gex,fb,vdj-b,vdj-t", Join(PresenceBits(sheet), ',')])
    && (r.Ok? ==> MapsEachRow(sheet, m))
  }

  /** Rejecting at the first bad row, with its reason and line, is the verdict. */
  lemma VerdictAtFirstBad(rows: seq<string>, i: int, m: map<string, seq<seq<string>>>)
    requires FirstBad(ParseRows(rows), i)
    ensures RowsVerdict(rows, Err(ReasonAt(ParseRows(rows), i), rows[i]), m)
  {
  }

  /** Accepting a sheet none of whose rows is bad is the verdict. */
  lemma VerdictAccept(rows: seq<string>, m: map<string, seq<seq<string>>>)
    requires forall i :: 0 <= i < |rows| ==> !Bad(ParseRows(rows), i)
    requires MapsEachRow(ParseRows(rows), m)
    ensures RowsVerdict(rows, Ok(["gex,fb,vdj-b,vdj-t", Join(PresenceBits(ParseRows(rows)), ',')]), m)
  {
  }

  /**
   * Validates the rows of a samplesheet whose header was accepted. Every
   * row, blank ones included, must pass its own checks and carry a
   * `fastq_id` no earlier row had; the first failure stops the run.
   */
  method CheckRows(rows: seq<string>) returns (r: Outcome, sampleMapping: map<string, seq<seq<string>>>)
    ensures RowsVerdict(rows, r, sampleMapping)
    ensures r.Err? ==> !r.reason.HeaderMismatch?
  {
    sampleMapping := map[];
    ghost var sheet := ParseRows(rows);
    var featureTypeList: seq<string> := [];
    var i := 0;
    while i < |rows|
      invariant Scanned(sheet, i, sampleMapping, featureTypeList)
    {
      var line := rows[i];
      var lspl := RowFields(line);
      assert lspl == sheet[i];
      var err := RowError(lspl);
      if err.Some? {
        assert FirstBad(sheet, i);
        VerdictAtFirstBad(rows, i, sampleMapping);
        return Err(err.value, line), sampleMapping;
      }
      var gem, fastqId, fastqs, featureType := lspl[0], lspl[1], lspl[2], lspl[3];
      var sampleInfo := [gem, fastqs, featureType];
      assert fastqId == IdOf(lspl) && sampleInfo == InfoOf(lspl) && featureType == FeatureOf(lspl);
      if fastqId in sampleMapping {
        ScanDuplicate(sheet, i, sampleMapping, featureTypeList);
        VerdictAtFirstBad(rows, i, sampleMapping);
        var reason := if sampleInfo in sampleMapping[fastqId] then DuplicateRow else DuplicateFastqId;
        return Err(reason, line), sampleMapping;
      }
      ScanAccept(sheet, i, sampleMapping, featureTypeList);
      featureTypeList := featureTypeList + [featureType];
      sampleMapping := sampleMapping[fastqId := [sampleInfo]];
      i := i + 1;
    }

    var output := Summary(featureTypeList);
    assert i == |sheet|;
    ScanDone(sheet, sampleMapping, featureTypeList);
    ScanPresence(sheet, sampleMapping, featureTypeList);
    VerdictAccept(rows, sampleMapping);
    r := Ok(output);
  }

  /**
   * Validates a samplesheet: the header's first four fields must be
   * exactly the required columns (more may follow), and then the rows are
   * checked as CheckRows describes.
   */
  method CheckSamplesheet(lines: seq<string>) returns (r: Outcome, sampleMapping: map<string, seq<seq<string>>>)
    ensures var h := HeaderFields(FirstLine(lines));
      (r.Err? && r.reason.HeaderMismatch?) <==> !(|h| >= |Header| && h[..|Header|] == Header)
    ensures r.Err? && r.reason.HeaderMismatch? ==>
      r == Err(HeaderMismatch(HeaderFields(FirstLine(lines))), FirstLine(lines))
    ensures HeaderOk(HeaderFields(FirstLine(lines))) ==> RowsVerdict(Rows(lines), r, sampleMapping)
  {
    var header := HeaderFields(FirstLine(lines));
    HeaderOkIff(header);
    if !HeaderOk(header) {
      return Err(HeaderMismatch(header), FirstLine(lines)), map[];
    }
    r, sampleMapping := CheckRows(Rows(lines));
  }

  /** A row whose first k fields are all populated counts at least k populated fields. */
  lemma {:induction false} NumPopulatedAtLeast(f: seq<string>, k: nat)
    requires k <= |f|
    requires forall j :: 0 <= j < k ==> f[j] != ""
    ensures NumPopulated(f) >= k
  {
    if k > 0 {
      NumPopulatedAtLeast(f[1..], k - 1);
    }
  }

  /** A row with an empty field counts fewer populated fields than it has fields. */
  lemma {:induction false} NumPopulatedGap(f: seq<string>, k: nat)
    requires k < |f| && f[k] == ""
    ensures NumPopulated(f) < |f|
  {
    if k > 0 {
      NumPopulatedGap(f[1..], k - 1);
    }
  }

  /** The positions of the populated fields among the first n. */
  ghost function PopulatedBelow(f: seq<string>, n: nat): set<int>
    requires n <= |f|
  {
    set i | 0 <= i < n && f[i] != ""
  }

  /** Appending a field adds one to the count iff that field is populated. */
  lemma {:induction false} NumPopulatedSnoc(f: seq<string>, x: string)
    ensures NumPopulated(f + [x]) == NumPopulated(f) + (if x != "" then 1 else 0)
  {
    if |f| > 0 {
      assert (f + [x])[1..] == f[1..] + [x];
      NumPopulatedSnoc(f[1..], x);
    } else {
      assert f + [x] == [x];
    }
  }

  /** The count over the first n fields is the number of populated positions among them. */
  lemma {:induction false} NumPopulatedPrefix(f: seq<string>, n: nat)
    requires n <= |f|
    ensures NumPopulated(f[..n]) == |PopulatedBelow(f, n)|
  {
    if n == 0 {
      assert PopulatedBelow(f, 0) == {};
    } else {
      NumPopulatedPrefix(f, n - 1);
      assert f[..n] == f[..n - 1] + [f[n - 1]];
      NumPopulatedSnoc(f[..n - 1], f[n - 1]);
      if f[n - 1] != "" {
        assert PopulatedBelow(f, n) == PopulatedBelow(f, n - 1) + {n - 1};
      } else {
        assert PopulatedBelow(f, n) == PopulatedBelow(f, n - 1);
      }
    }
  }

  /** The populated count is the number of non-empty fields, wherever they stand. */
  lemma NumPopulatedCounts(f: seq<string>)
    ensures NumPopulated(f) == |set i | 0 <= i < |f| && f[i] != ""|
  {
    NumPopulatedPrefix(f, |f|);
    assert f[..|f|] == f;
  }

  /**
   * A row is rejected for too few populated columns iff it has at least
   * four fields but fewer than four of all its fields, extra ones
   * included, are non-empty.
   */
  lemma TooFewPopulatedIff(f: seq<string>)
    ensures RowError(f) == Some(TooFewPopulated) <==>
      |f| >= |Header| && |set i | 0 <= i < |f| && f[i] != ""| < MinCols
  {
    NumPopulatedCounts(f);
  }

  /**
   * A row passes its own checks iff it has at least four fields, the first
   * three are populated and the fourth is one of the accepted feature types.
   */
  lemma RowAcceptedIff(f: seq<string>)
    ensures RowError(f).None? <==>
      |f| >= |Header| && f[0] != "" && f[1] != "" && f[2] != "" && f[3] in FeatureTypes
  {
    if |f| >= |Header| && f[0] != "" && f[1] != "" && f[2] != "" && f[3] in FeatureTypes {
      NumPopulatedAtLeast(f, 4);
    }
  }

  /**
   * The four "entry has not been specified" reasons are only ever reported
   * for rows with more than four fields: in a four-field row an empty field
   * leaves fewer than four populated ones, which is reported first.
   */
  lemma MissingEntryNeedsExtraFields(f: seq<string>)
    requires RowError(f) in {Some(MissingGem), Some(MissingFastqId), Some(MissingFastqs), Some(MissingFeatureTypes)}
    ensures |f| > |Header|
  {
    if |f| == |Header| {
      var k := if f[0] == "" then 0 else if f[1] == "" then 1 else if f[2] == "" then 2 else 3;
      NumPopulatedGap(f, k);
    }
  }

  /** A line without a comma, the blank line included, is always rejected for too few columns. */
  lemma CommaFreeRowRejected(line: string)
    requires ',' !in line
    ensures RowError(RowFields(line)) == Some(TooFewColumns)
  {
    StripByChars(line, Whitespace);
    CountZero(Strip(line), ',');
  }

  /**
   * A populated fifth field makes up for an empty one among the first four:
   * the row gets past the populated-count check and is rejected for the
   * missing `fastq_id` instead.
   */
  lemma ExtraFieldCountsAsPopulated()
    ensures RowError(["g1", "", "/p", "gex", "x"]) == Some(MissingFastqId)
    ensures RowError(["g1", "", "/p", "gex"]) == Some(TooFewPopulated)
  {
    assert NumPopulated(["g1", "", "/p", "gex", "x"]) == 4;
    assert NumPopulated(["g1", "", "/p", "gex"]) == 3;
  }

  /**
   * An accepted sheet has pairwise distinct `fastq_id`s and every row passes
   * its own checks.
   */
  lemma AcceptedRowsDistinct(rows: seq<string>, r: Outcome, m: map<string, seq<seq<string>>>)
    requires RowsVerdict(rows, r, m) && r.Ok?
    ensures var sheet := ParseRows(rows);
      forall i, j :: 0 <= i < j < |sheet| ==> IdOf(sheet[i]) != IdOf(sheet[j])
    ensures var sheet := ParseRows(rows);
      forall i :: 0 <= i < |sheet| ==> RowError(sheet[i]).None?
  {
    var sheet := ParseRows(rows);
    forall i, j | 0 <= i < j < |sheet| ensures IdOf(sheet[i]) != IdOf(sheet[j]) {
      assert !Bad(sheet, j);
    }
    forall i | 0 <= i < |sheet| ensures RowError(sheet[i]).None? {
      assert !Bad(sheet, i);
    }
  }

  /** The presence vector does not depend on the order of the rows. */
  lemma PresenceOrderFree(a: seq<seq<string>>, b: seq<seq<string>>)
    requires multiset(a) == multiset(b)
    ensures PresenceBits(a) == PresenceBits(b)
  {
    forall t ensures TypeSeen(a, t) ==> TypeSeen(b, t) {
      if TypeSeen(a, t) {
        var i :| 0 <= i < |a| && FeatureOf(a[i]) == t;
        assert a[i] in multiset(b);
        var j :| 0 <= j < |b| && b[j] == a[i];
      }
    }
    forall t ensures TypeSeen(b, t) ==> TypeSeen(a, t) {
      if TypeSeen(b, t) {
        var j :| 0 <= j < |b| && FeatureOf(b[j]) == t;
        assert b[j] in multiset(a);
        var i :| 0 <= i < |a| && a[i] == b[j];
      }
    }
  }

  /** The message text of each row reason. */
  function ReasonText(r: Reason): string
  {
    match r
    case HeaderMismatch(_) => ""
    case TooFewColumns => "Invalid number of columns (minimum = 4)!"
    case TooFewPopulated => "Invalid number of populated columns (minimum = 4)!"
    case MissingGem => "gem entry has not been specified!"
    case MissingFastqId => "fastq_id entry has not been specified!"
    case MissingFastqs => "fastqs entry has not been specified!"
    case MissingFeatureTypes => "feature_types entry has not been specified!"
    case InvalidFeatureType => "invalid feature type, should be gex, fb, vdj-b or vdj-t"
    case DuplicateRow => "Samplesheet contains duplicate rows!"
    case DuplicateFastqId => "Samplesheet contains duplicate fastq_id entries!"
  }

  /**
   * The error report: the message on one line, followed, when both the
   * context label and the context text are non-empty, by a second line
   * with the label and the quoted context, each whitespace-stripped.
   */
  function PrintError(error: string, context: string, contextStr: string): string
  {
    var head := "ERROR: Please check samplesheet -> " + error;
    if context != "" && contextStr != "" then
      head + "\n" + Strip(context) + ": '" + Strip(contextStr) + "'"
    else head
  }

  /** The text reported for a rejection. */
  function Message(reason: Reason, line: string): string
  {
    if reason.HeaderMismatch? then
      "ERROR: Please check samplesheet header -> " + Join(reason.header, ',') + " != " + Join(Header, ',')
    else PrintError(ReasonText(reason), "Line", line)
  }

  /**
   * A report of a one-line error message reads as two lines, the message
   * and then the stripped context, when the context text is not empty and
   * holds no line break once stripped; with an empty context text it is
   * the message line alone.
   */
  lemma PrintErrorLines(error: string, contextStr: string)
    requires '\n' !in error && '\n' !in Strip(contextStr)
    ensures contextStr != "" ==> (Split(PrintError(error, "Line", contextStr), '\n') ==
      ["ERROR: Please check samplesheet -> " + error, "Line: '" + Strip(contextStr) + "'"])
    ensures contextStr == "" ==> (Split(PrintError(error, "Line", contextStr), '\n') ==
      ["ERROR: Please check samplesheet -> " + error])
  {
    var head := "ERROR: Please check samplesheet -> " + error;
    ReportHeadOneLine(error);
    if contextStr != "" {
      var tail := "Line: '" + Strip(contextStr) + "'";
      ReportTailOneLine(contextStr);
      assert PrintError(error, "Line", contextStr) == head + ['\n'] + tail;
      SplitTwo(head, tail, '\n');
    } else {
      SplitNoSep(head, '\n');
    }
  }

  /** The first report line is free of line breaks when the message is. */
  lemma ReportHeadOneLine(error: string)
    requires '\n' !in error
    ensures '\n' !in "ERROR: Please check samplesheet -> " + error
  {
    assert '\n' !in "ERROR: Please check samplesheet -> ";
  }

  /** The context line is free of line breaks when the stripped context is. */
  lemma ReportTailOneLine(contextStr: string)
    requires '\n' !in Strip(contextStr)
    ensures Strip("Line") == "Line"
    ensures '\n' !in "Line: '" + Strip(contextStr) + "'"
  {
  }

  /**
   * A header line written from clean fields is accepted iff it has at
   * least the four required columns, first and in order.
   */
  lemma CleanHeaderAcceptedIff(fields: seq<string>)
    requires |fields| >= 1 && CleanFields(fields)
    ensures HeaderOk(HeaderFields(Join(fields, ','))) <==> |fields| >= |Header| && fields[..|Header|] == Header
  {
    HeaderFieldsJoin(fields);
    HeaderOkIff(fields);
  }
}
