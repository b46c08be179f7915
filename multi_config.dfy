/**
 * The multi-config renderer of bin/generate_multi_config.py.
 *
 * The workflow hands the script three list-valued arguments, each as the
 * text of a list (`[a, b, c]`): sample names, feature-type codes and sample
 * directories, plus the three reference names. The script writes the
 * `cellranger multi` configuration: a fixed preamble naming the references
 * under the working directory, then one library line per sample. The file
 * is modelled as the sequence of its lines, each written with a trailing
 * newline; the working directory is a parameter.
 */
module MultiConfig {
  import opened Wrappers
  import opened Text

  /** The feature-type codes the renderer knows, and their labels in the config. */
  const Keys: seq<string> := ["gex", "fb", "vdj_b", "vdj_t"]
  const Vals: seq<string> := ["gene expression", "antibody capture", "vdj-b", "vdj-t"]

  /**
   * Python's `dict(zip(keys, vals))` over the first n pairs: each key is
   * bound to its value, a later pair overriding an earlier one.
   */
  function ZipMap(keys: seq<string>, vals: seq<string>, n: nat): (m: map<string, string>)
    requires n <= |keys| && n <= |vals|
    ensures m.Keys == set k | k in keys[..n]
  {
    if n == 0 then map[]
    else
      assert keys[..n] == keys[..n - 1] + [keys[n - 1]];
      ZipMap(keys, vals, n - 1)[keys[n - 1] := vals[n - 1]]
  }

  /** With pairwise distinct keys, each key is bound to the value beside it. */
  lemma {:induction false} ZipMapLookup(keys: seq<string>, vals: seq<string>, n: nat, i: nat)
    requires n <= |keys| && n <= |vals| && i < n
    requires forall a, b :: 0 <= a < b < n ==> keys[a] != keys[b]
    ensures keys[i] in ZipMap(keys, vals, n) && ZipMap(keys, vals, n)[keys[i]] == vals[i]
  {
    if i < n - 1 {
      ZipMapLookup(keys, vals, n - 1, i);
    }
  }

  /** The code-to-label table. */
  function LabelTable(): map<string, string>
  {
    ZipMap(Keys, Vals, |Keys|)
  }

  /**
   * The table has exactly the four underscore codes, each bound to its
   * label; the hyphenated spellings are not codes.
   */
  lemma LabelTableEntries()
    ensures LabelTable() == map["gex" := "gene expression", "fb" := "antibody capture", "vdj_b" := "vdj-b", "vdj_t" := "vdj-t"]
    ensures "vdj-b" !in LabelTable() && "vdj-t" !in LabelTable()
  {
    assert ZipMap(Keys, Vals, 1) == map["gex" := "gene expression"];
    assert ZipMap(Keys, Vals, 2) == map["gex" := "gene expression", "fb" := "antibody capture"];
    assert ZipMap(Keys, Vals, 3) == map["gex" := "gene expression", "fb" := "antibody capture", "vdj_b" := "vdj-b"];
  }

  /**
   * A list argument as the script reads it: every `[` stripped from both
   * ends, then every `]`, then all spaces removed, then split on commas.
   */
  function ParseList(arg: string): (items: seq<string>)
    ensures |items| >= 1
  {
    Split(RemoveChar(StripChar(StripChar(arg, '['), ']'), ' '), ',')
  }

  /** The sample names: a list argument whose `|` stand for commas inside a name. */
  function ParseSamples(arg: string): (samples: seq<string>)
    ensures |samples| == |ParseList(arg)|
  {
    var items := ParseList(arg);
    seq(|items|, k requires 0 <= k < |items| => ReplaceChar(items[k], '|', ','))
  }

  /** No parsed item holds a space or a comma. */
  lemma ParseListItems(arg: string)
    ensures forall k :: 0 <= k < |ParseList(arg)| ==> ' ' !in ParseList(arg)[k] && ',' !in ParseList(arg)[k]
  {
    var s := RemoveChar(StripChar(StripChar(arg, '['), ']'), ' ');
    SplitShape(s, ',');
    SplitPieceChars(s, ',');
  }

  /**
   * A sample name holds a comma iff its item held a `|`, and turning the
   * commas back into `|` gives the item back.
   */
  lemma ParseSamplesPipes(arg: string)
    ensures forall k :: 0 <= k < |ParseSamples(arg)| ==>
      && (',' in ParseSamples(arg)[k] <==> '|' in ParseList(arg)[k])
      && ReplaceChar(ParseSamples(arg)[k], ',', '|') == ParseList(arg)[k]
  {
    ParseListItems(arg);
    var items := ParseList(arg);
    forall k | 0 <= k < |items|
      ensures (',' in ParseSamples(arg)[k] <==> '|' in items[k])
      ensures ReplaceChar(ParseSamples(arg)[k], ',', '|') == items[k]
    {
      ReplaceCharBack(items[k], '|', ',');
    }
  }

  /** How the workflow prints a list: `[a, b, c]`. */
  function ListText(items: seq<string>): string
  {
    "[" + JoinSpaced(items) + "]"
  }

  /** The items separated by a comma and a space. */
  function JoinSpaced(items: seq<string>): string
  {
    if |items| == 0 then ""
    else if |items| == 1 then items[0]
    else items[0] + ", " + JoinSpaced(items[1..])
  }

  /** The characters of a list separated by ", " are its items' and the separator's. */
  lemma {:induction false} JoinSpacedChars(items: seq<string>, c: char)
    requires c != ',' && c != ' '
    requires forall k :: 0 <= k < |items| ==> c !in items[k]
    ensures c !in JoinSpaced(items)
  {
    if |items| > 1 {
      JoinSpacedChars(items[1..], c);
    }
  }

  /** Removing the spaces from a ", "-separated list of space-free items leaves it comma-separated. */
  lemma {:induction false} JoinSpacedNoSpaces(items: seq<string>)
    requires forall k :: 0 <= k < |items| ==> ' ' !in items[k]
    ensures RemoveChar(JoinSpaced(items), ' ') == Join(items, ',')
  {
    if |items| == 1 {
      RemoveCharAbsent(items[0], ' ');
    } else if |items| > 1 {
      JoinSpacedNoSpaces(items[1..]);
      assert JoinSpaced(items) == items[0] + ", " + JoinSpaced(items[1..]);
      RemoveCharAppend(items[0] + ", ", JoinSpaced(items[1..]), ' ');
      RemoveCharAppend(items[0], ", ", ' ');
      RemoveCharAbsent(items[0], ' ');
    }
  }

  /**
   * Reading back a printed list gives its items, for a non-empty list whose
   * items hold no bracket, comma or space.
   */
  lemma ParseListRoundTrip(items: seq<string>)
    requires |items| >= 1
    requires forall k :: 0 <= k < |items| ==>
      '[' !in items[k] && ']' !in items[k] && ',' !in items[k] && ' ' !in items[k]
    ensures ParseList(ListText(items)) == items
  {
    UnbracketListText(items);
    JoinSpacedNoSpaces(items);
    SplitJoin(items, ',');
  }

  /** The text of an empty list reads as one empty item, not as no items. */
  lemma EmptyListText()
    ensures ParseList("[]") == [""]
  {
    assert StripChar("[]", '[') == "]";
    assert StripChar("]", ']') == "";
  }

  /** Stripping the brackets from a printed list leaves the items and their separators. */
  lemma UnbracketListText(items: seq<string>)
    requires forall k :: 0 <= k < |items| ==> '[' !in items[k] && ']' !in items[k]
    ensures StripChar(StripChar(ListText(items), '['), ']') == JoinSpaced(items)
  {
    var x := JoinSpaced(items);
    JoinSpacedChars(items, '[');
    JoinSpacedChars(items, ']');
    assert ListText(items) == "[" + (x + "]");
    StripOpenBracket(x + "]");
    StripCloseBracket(x);
  }

  /** Stripping `[` from a bracket-free text behind one `[` removes just that one. */
  lemma StripOpenBracket(y: string)
    requires '[' !in y
    ensures StripChar("[" + y, '[') == y
  {
    assert "[" + y == "[" + y + [];
    if y != [] {
      assert y[0] in y && y[|y| - 1] in y;
    }
    StripByEnclosed("[", y, [], Only('['));
  }

  /** Stripping `]` from a text free of `]` followed by one `]` removes just that one. */
  lemma StripCloseBracket(x: string)
    requires ']' !in x
    ensures StripChar(x + "]", ']') == x
  {
    assert x + "]" == [] + x + "]";
    if x != [] {
      assert x[0] in x && x[|x| - 1] in x;
    }
    StripByEnclosed([], x, "]", Only(']'));
  }

  /** The sample as it appears in a library line: double-quoted when it holds a comma. */
  function QuotedSample(sample: string): string
  {
    if ',' in sample then "\"" + sample + "\"" else sample
  }

  /** One library line: sample, directory, feature-type label. */
  function LibraryLine(sample: string, dir: string, featureLabel: string): string
  {
    QuotedSample(sample) + "," + dir + "," + featureLabel
  }

  /**
   * Split on commas, a library line ends with the directory and the label,
   * and what comes before them joins back to the (possibly quoted) sample;
   * a comma-free sample is exactly the first of three fields.
   */
  lemma LibraryLineFields(sample: string, dir: string, featureLabel: string)
    requires ',' !in dir && ',' !in featureLabel
    ensures var f := Split(LibraryLine(sample, dir, featureLabel), ',');
      && |f| >= 3
      && f[|f| - 2] == dir && f[|f| - 1] == featureLabel
      && Join(f[..|f| - 2], ',') == QuotedSample(sample)
    ensures ',' !in sample ==> Split(LibraryLine(sample, dir, featureLabel), ',') == [sample, dir, featureLabel]
  {
    var q := QuotedSample(sample);
    assert LibraryLine(sample, dir, featureLabel) == q + [','] + (dir + [','] + featureLabel);
    SplitAppend(q, dir + [','] + featureLabel, ',');
    SplitTwo(dir, featureLabel, ',');
    SplitShape(q, ',');
    var f := Split(LibraryLine(sample, dir, featureLabel), ',');
    assert f[..|f| - 2] == Split(q, ',');
    if ',' !in sample {
      SplitNoSep(sample, ',');
    }
  }

  /** The lines before the libraries: the three references and the library header. */
  function Preamble(cwd: string, gexReference: string, vdjReference: string, fbReference: string): seq<string>
  {
    [ "[gene-expression]"
    , "reference," + cwd + "/" + gexReference
    , "[vdj]"
    , "reference," + cwd + "/" + vdjReference
    , "[feature]"
    , "reference," + cwd + "/" + fbReference
    , "[libraries]"
    , "fastq_id,fastqs,feature_types"
    ]
  }

  /** The lines written, and the unknown code that stopped the run, if any. */
  datatype Rendered = Rendered(written: seq<string>, fault: Option<string>)

  /** The smaller of three counts: `zip` stops at the shortest list. */
  function Min3(a: nat, b: nat, c: nat): (m: nat)
    ensures m <= a && m <= b && m <= c
    ensures m == a || m == b || m == c
  {
    if a <= b && a <= c then a else if b <= c then b else c
  }

  /**
   * The library lines written from the samples, directories and codes,
   * walked in step up to the shortest list: each known code gives a
   * library line, and the first unknown code stops the walk (the
   * dictionary lookup fails), which is then the reported fault.
   */
  ghost predicate LibrariesWritten(samples: seq<string>, dirs: seq<string>, fts: seq<string>,
                                   table: map<string, string>, libs: seq<string>, fault: Option<string>)
  {
    var n := Min3(|samples|, |dirs|, |fts|);
    && |libs| <= n
    && (forall i :: 0 <= i < |libs| ==>
          fts[i] in table && libs[i] == LibraryLine(samples[i], dirs[i], table[fts[i]]))
    && (fault.None? <==> |libs| == n)
    && (fault.Some? ==> fts[|libs|] !in table && fault.value == fts[|libs|])
  }

  /** The walk ends without a fault iff every code up to the shortest list is known. */
  lemma FaultIffUnknownCode(samples: seq<string>, dirs: seq<string>, fts: seq<string>,
                            table: map<string, string>, libs: seq<string>, fault: Option<string>)
    requires LibrariesWritten(samples, dirs, fts, table, libs, fault)
    ensures fault.None? <==> forall i :: 0 <= i < Min3(|samples|, |dirs|, |fts|) ==> fts[i] in table
  {
  }

  /** The library lines and the fault are determined by the lists and the table. */
  lemma LibrariesWrittenUnique(samples: seq<string>, dirs: seq<string>, fts: seq<string>, table: map<string, string>,
                               libs1: seq<string>, fault1: Option<string>, libs2: seq<string>, fault2: Option<string>)
    requires LibrariesWritten(samples, dirs, fts, table, libs1, fault1)
    requires LibrariesWritten(samples, dirs, fts, table, libs2, fault2)
    ensures libs1 == libs2 && fault1 == fault2
  {
    assert |libs1| == |libs2|;
  }

  /** The library section, up to the shortest list or the first unknown code. */
  method WriteLibraries(samplesList: seq<string>, sampleDirsList: seq<string>, featureTypeList: seq<string>, dictFt: map<string, string>)
    returns (libs: seq<string>, fault: Option<string>)
    ensures LibrariesWritten(samplesList, sampleDirsList, featureTypeList, dictFt, libs, fault)
  {
    libs := [];
    var n := Min3(|samplesList|, |sampleDirsList|, |featureTypeList|);
    for i := 0 to n
      invariant |libs| == i
      invariant forall j :: 0 <= j < i ==>
        featureTypeList[j] in dictFt
        && libs[j] == LibraryLine(samplesList[j], sampleDirsList[j], dictFt[featureTypeList[j]])
    {
      var sample, dir, ft := samplesList[i], sampleDirsList[i], featureTypeList[i];
      if ft !in dictFt {
        return libs, Some(ft);
      }
      var line;
      if ',' in sample {
        line := "\"" + sample + "\"," + dir + "," + dictFt[ft];
      } else {
        line := sample + "," + dir + "," + dictFt[ft];
      }
      assert line == LibraryLine(sample, dir, dictFt[ft]);
      libs := libs + [line];
    }
    return libs, None;
  }

  /**
   * Writes the config: the preamble, then the library section, cut short
   * at the first unknown feature-type code.
   */
  method GenerateMultiConfig(
    samplesArg: string, featureTypesArg: string, sampleDirsArg: string,
    gexReference: string, vdjReference: string, fbReference: string, cwd: string)
    returns (out: Rendered)
    ensures |out.written| >= 8
    ensures out.written[..8] == Preamble(cwd, gexReference, vdjReference, fbReference)
    ensures LibrariesWritten(ParseSamples(samplesArg), ParseList(sampleDirsArg), ParseList(featureTypesArg),
                             LabelTable(), out.written[8..], out.fault)
  {
    var samplesList := ParseSamples(samplesArg);
    var featureTypeList := ParseList(featureTypesArg);
    var sampleDirsList := ParseList(sampleDirsArg);
    var dictFt := ZipMap(Keys, Vals, |Keys|);

    var written: seq<string> := [];
    written := written + ["[gene-expression]"];
    written := written + ["reference," + cwd + "/" + gexReference];
    written := written + ["[vdj]"];
    written := written + ["reference," + cwd + "/" + vdjReference];
    written := written + ["[feature]"];
    written := written + ["reference," + cwd + "/" + fbReference];
    written := written + ["[libraries]"];
    written := written + ["fastq_id,fastqs,feature_types"];
    assert written == Preamble(cwd, gexReference, vdjReference, fbReference);

    var libs, fault := WriteLibraries(samplesList, sampleDirsList, featureTypeList, dictFt);
    out := Rendered(written + libs, fault);
    assert out.written[..8] == written && out.written[8..] == libs;
  }

  /** The empty code is not in the table. */
  lemma EmptyCodeUnknown()
    ensures "" !in LabelTable()
  {
    LabelTableEntries();
  }

  /**
   * An empty feature-type list always faults before any library line: its
   * one empty item is paired with the first sample and directory, which
   * every list argument has, and the empty code is not in the table.
   */
  lemma EmptyTypeListFaults(samplesArg: string, sampleDirsArg: string, libs: seq<string>, fault: Option<string>)
    requires LibrariesWritten(ParseSamples(samplesArg), ParseList(sampleDirsArg), ParseList("[]"), LabelTable(), libs, fault)
    ensures libs == [] && fault == Some("")
  {
    EmptyListText();
    EmptyCodeUnknown();
    assert Min3(|ParseSamples(samplesArg)|, |ParseList(sampleDirsArg)|, 1) == 1;
    assert ParseList("[]")[0] !in LabelTable();
  }

  /**
   * Of the four feature types the samplesheet validator accepts, only `gex`
   * and `fb` are codes the renderer knows; `vdj-b` and `vdj-t` are spelled
   * with an underscore in its table.
   */
  lemma ValidatorTypesKnown(t: string)
    requires t in ["gex", "fb", "vdj-b", "vdj-t"]
    ensures t in LabelTable() <==> t == "gex" || t == "fb"
  {
    LabelTableEntries();
  }
}
