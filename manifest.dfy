/**
 * The manifest builder of qiime2_script.py (`generate_manifest`).
 *
 * The directory listing is a parameter; the absolute path of a file of the
 * sample folder is the opaque function `absPath` of its name. The manifest file is
 * modelled as the sequence of lines written to it, each ending in a newline.
 *
 * The specification is functional: `BuildSamples` is the sample dictionary after
 * the first loop, `EmitRows` the rows the second loop writes. `GenerateManifest`
 * is the loop-by-loop procedure and is proved to write exactly `ManifestLines`.
 */
module Manifest {
  import opened Wrappers
  import opened Text
  import Sorting

  datatype Direction = Forward | Reverse

  /** How a direction is spelled in the manifest's third column. */
  function DirectionName(d: Direction): string {
    match d
    case Forward => "forward"
    case Reverse => "reverse"
  }

  const FastqSuffix := ".fastq.gz"
  const ForwardMarker := "_R1_"
  const ReverseMarker := "_R2_"
  const HeaderLine := "sample-id,absolute-filepath,direction\n"

  /** The file-name marker that identifies a direction. */
  function Marker(d: Direction): string {
    match d
    case Forward => ForwardMarker
    case Reverse => ReverseMarker
  }

  /** What a file name says about itself: the sample it belongs to and its read direction. */
  datatype Read = Read(sampleId: string, direction: Direction)

  /**
   * How the first loop reads a file name: a name containing `_R1_` is a forward
   * read, else one containing `_R2_` a reverse read, else it is skipped; the
   * sample id is the text before the first occurrence of the winning marker.
   */
  function Classify(name: string): (r: Option<Read>)
    ensures (r.Some? && r.value.direction == Forward) <==> Contains(name, ForwardMarker)
    ensures (r.Some? && r.value.direction == Reverse)
            <==> !Contains(name, ForwardMarker) && Contains(name, ReverseMarker)
    ensures r.Some? ==> IsFirstSplit(name, Marker(r.value.direction), r.value.sampleId)
  {
    if Contains(name, ForwardMarker) then Some(Read(PrefixBefore(name, ForwardMarker), Forward))
    else if Contains(name, ReverseMarker) then Some(Read(PrefixBefore(name, ReverseMarker), Reverse))
    else None
  }

  /** The names of the listing that end in `.fastq.gz`, in listing order. */
  function FastqNames(listing: seq<string>): (r: seq<string>)
    ensures forall f :: f in r <==> f in listing && EndsWith(f, FastqSuffix)
    ensures |r| <= |listing|
  {
    if listing == [] then []
    else (if EndsWith(listing[0], FastqSuffix) then [listing[0]] else []) + FastqNames(listing[1..])
  }

  /** Every listed `.fastq.gz` name is kept as often as it is listed, and no other name. */
  lemma {:induction false} FastqNamesCounts(listing: seq<string>)
    ensures forall f :: multiset(FastqNames(listing))[f]
                        == if EndsWith(f, FastqSuffix) then multiset(listing)[f] else 0
    decreases |listing|
  {
    if listing != [] {
      FastqNamesCounts(listing[1..]);
      assert listing == [listing[0]] + listing[1..];
    }
  }

  /** `sorted(...)` of the FASTQ names: the order in which the first loop visits them. */
  function FastqFiles(listing: seq<string>): seq<string> {
    Sorting.SortBy(FastqNames(listing), LexLe)
  }

  /** Only `.fastq.gz` names are visited, each of them, in ascending string order. */
  lemma FastqFilesSorted(listing: seq<string>)
    ensures forall f :: f in FastqFiles(listing) <==> f in listing && EndsWith(f, FastqSuffix)
    ensures forall f :: multiset(FastqFiles(listing))[f]
                        == if EndsWith(f, FastqSuffix) then multiset(listing)[f] else 0
    ensures Sorting.SortedBy(FastqFiles(listing), LexLe)
  {
    FastqNamesCounts(listing);
    forall a, b ensures LexLe(a, b) || LexLe(b, a) {
      LexLeTotal(a, b);
    }
    forall a, b, c | LexLe(a, b) && LexLe(b, c) ensures LexLe(a, c) {
      LexLeTransitive(a, b, c);
    }
    Sorting.SortBySorted(FastqNames(listing), LexLe);
    var files := FastqFiles(listing);
    forall f ensures f in files <==> f in FastqNames(listing) {
      assert f in files <==> f in multiset(files);
    }
  }

  /**
   * `sample_dict`: the sample ids in insertion order (the iteration order of a
   * Python dict) and, per sample, the path stored for each direction.
   */
  datatype Samples = Samples(order: seq<string>, paths: map<string, map<Direction, string>>)

  predicate NoDuplicates(s: seq<string>) {
    forall i, j :: 0 <= i < j < |s| ==> s[i] != s[j]
  }

  /** The order lists each key of the dictionary exactly once. */
  ghost predicate WellFormed(s: Samples) {
    && NoDuplicates(s.order)
    && (forall id :: id in s.order <==> id in s.paths)
  }

  /** What the first loop uses of one visited name: its classification and its absolute path. */
  datatype Visit = Visit(read: Option<Read>, path: string)

  /** The names in visiting order, each classified once. */
  function Visits(files: seq<string>, absPath: string -> string): seq<Visit> {
    seq(|files|, k requires 0 <= k < |files| => Visit(Classify(files[k]), absPath(files[k])))
  }

  /**
   * One iteration of the first loop: a marked name stores its path under its
   * sample and direction, overwriting an earlier one; an unmarked name is skipped.
   */
  function Record(s: Samples, v: Visit): Samples {
    match v.read
    case None => s
    case Some(Read(id, d)) =>
      if id in s.paths then Samples(s.order, s.paths[id := s.paths[id][d := v.path]])
      else Samples(s.order + [id], s.paths[id := map[d := v.path]])
  }

  /** `sample_dict` after the first loop has gone through `vs` in order. */
  function BuildSamples(vs: seq<Visit>): (s: Samples)
    ensures WellFormed(s)
    decreases |vs|
  {
    if vs == [] then Samples([], map[])
    else Record(BuildSamples(vs[..|vs| - 1]), vs[|vs| - 1])
  }

  /** One manifest row: sample id, absolute path, direction. */
  datatype Row = Row(sampleId: string, path: string, direction: Direction)

  /** The rows the second loop writes for one sample. */
  function SampleRows(id: string, paths: map<Direction, string>, pairedEnd: bool): seq<Row> {
    if pairedEnd && Forward in paths && Reverse in paths then
      [Row(id, paths[Forward], Forward), Row(id, paths[Reverse], Reverse)]
    else if !pairedEnd && Forward in paths then
      [Row(id, paths[Forward], Forward)]
    else []
  }

  /**
   * The rule for one sample: each row carries the path stored for its direction.
   * In paired-end mode there are rows exactly when both directions are stored,
   * forward first, then reverse; in single-end mode there is a row exactly when
   * a forward path is stored, and it is a forward row.
   */
  lemma SampleRowsRule(id: string, paths: map<Direction, string>, pairedEnd: bool)
    ensures |SampleRows(id, paths, pairedEnd)| <= 2
    ensures forall r :: r in SampleRows(id, paths, pairedEnd) ==>
              r.sampleId == id && r.direction in paths && r.path == paths[r.direction]
    ensures pairedEnd ==>
              (SampleRows(id, paths, pairedEnd) != [] <==> Forward in paths && Reverse in paths)
    ensures pairedEnd && SampleRows(id, paths, pairedEnd) != [] ==>
              SampleRows(id, paths, pairedEnd)[0].direction == Forward
              && SampleRows(id, paths, pairedEnd)[1].direction == Reverse
    ensures pairedEnd && Forward in paths && Reverse in paths ==> |SampleRows(id, paths, pairedEnd)| == 2
    ensures !pairedEnd && Forward in paths ==> |SampleRows(id, paths, pairedEnd)| == 1
    ensures !pairedEnd ==>
              (SampleRows(id, paths, pairedEnd) != [] <==> Forward in paths)
              && forall r :: r in SampleRows(id, paths, pairedEnd) ==> r.direction == Forward
  {
  }

  /** The rows of the samples in `order`, sample after sample. */
  function EmitRows(order: seq<string>, paths: map<string, map<Direction, string>>, pairedEnd: bool): seq<Row>
    requires forall id :: id in order ==> id in paths
    decreases |order|
  {
    if order == [] then []
    else
      var last := order[|order| - 1];
      EmitRows(order[..|order| - 1], paths, pairedEnd) + SampleRows(last, paths[last], pairedEnd)
  }

  /** Every row of the manifest, below the header. */
  function ManifestRows(listing: seq<string>, pairedEnd: bool, absPath: string -> string): seq<Row> {
    var s := BuildSamples(Visits(FastqFiles(listing), absPath));
    EmitRows(s.order, s.paths, pairedEnd)
  }

  /** One manifest line: the row's three fields separated by commas, then a newline. */
  function RowLine(r: Row): string {
    r.sampleId + "," + r.path + "," + DirectionName(r.direction) + "\n"
  }

  function RenderLines(rows: seq<Row>): seq<string> {
    seq(|rows|, i requires 0 <= i < |rows| => RowLine(rows[i]))
  }

  /** The whole manifest file, line by line. */
  function ManifestLines(listing: seq<string>, pairedEnd: bool, absPath: string -> string): seq<string> {
    [HeaderLine] + RenderLines(ManifestRows(listing, pairedEnd, absPath))
  }

  // ---------------------------------------------------------------------------
  // Reading the manifest back

  /** A field the manifest can carry unquoted: no comma and no newline. */
  predicate PlainField(s: string) {
    forall i :: 0 <= i < |s| ==> s[i] != ',' && s[i] != '\n'
  }

  /** Reads one manifest line: two comma-terminated fields, then a direction name and a newline. */
  function ParseRow(line: string): Option<Row> {
    match IndexOf(line, ",")
    case None => None
    case Some(i) =>
      var rest := line[i + 1..];
      match IndexOf(rest, ",")
      case None => None
      case Some(j) =>
        var tail := rest[j + 1..];
        if tail == DirectionName(Forward) + "\n" then Some(Row(line[..i], rest[..j], Forward))
        else if tail == DirectionName(Reverse) + "\n" then Some(Row(line[..i], rest[..j], Reverse))
        else None
  }

  /** A row whose sample id and path are plain fields reads back from its line. */
  lemma ParseRowLine(r: Row)
    requires PlainField(r.sampleId) && PlainField(r.path)
    ensures ParseRow(RowLine(r)) == Some(r)
  {
    var line, tail := RowLine(r), DirectionName(r.direction) + "\n";
    var i, j := |r.sampleId|, |r.path|;
    var rest := r.path + "," + tail;
    assert line == r.sampleId + [','] + rest;
    IndexOfSeparator(r.sampleId, ',', rest);
    assert line[i + 1..] == rest && line[..i] == r.sampleId;
    IndexOfSeparator(r.path, ',', tail);
    assert rest[j + 1..] == tail && rest[..j] == r.path;
    assert IndexOf(line, ",") == Some(i) && IndexOf(rest, ",") == Some(j);
    if r.direction == Forward {
      assert tail == DirectionName(Forward) + "\n";
    } else {
      assert tail[0] != (DirectionName(Forward) + "\n")[0];
      assert tail == DirectionName(Reverse) + "\n";
    }
  }

  /** Each rendered line reads back as its row when the fields are plain. */
  lemma RenderLinesParse(rows: seq<Row>)
    requires forall r :: r in rows ==> PlainField(r.sampleId) && PlainField(r.path)
    ensures forall i :: 0 <= i < |rows| ==> ParseRow(RenderLines(rows)[i]) == Some(rows[i])
  {
    forall i | 0 <= i < |rows| ensures ParseRow(RenderLines(rows)[i]) == Some(rows[i]) {
      assert rows[i] in rows;
      ParseRowLine(rows[i]);
    }
  }

  /**
   * The manifest is the header followed by one line per row, and when no sample
   * id or path holds a comma or a newline, each line reads back as its row.
   */
  lemma ManifestLinesParse(listing: seq<string>, pairedEnd: bool, absPath: string -> string)
    requires forall r :: r in ManifestRows(listing, pairedEnd, absPath) ==> PlainField(r.sampleId) && PlainField(r.path)
    ensures |ManifestLines(listing, pairedEnd, absPath)| == |ManifestRows(listing, pairedEnd, absPath)| + 1
    ensures ManifestLines(listing, pairedEnd, absPath)[0] == HeaderLine
    ensures forall i :: 0 <= i < |ManifestRows(listing, pairedEnd, absPath)| ==>
              ParseRow(ManifestLines(listing, pairedEnd, absPath)[i + 1]) == Some(ManifestRows(listing, pairedEnd, absPath)[i])
  {
    var rows := ManifestRows(listing, pairedEnd, absPath);
    var lines := ManifestLines(listing, pairedEnd, absPath);
    RenderLinesParse(rows);
    assert forall i :: 0 <= i < |rows| ==> lines[i + 1] == RenderLines(rows)[i];
  }

  lemma RenderLinesConcat(a: seq<Row>, b: seq<Row>)
    ensures RenderLines(a + b) == RenderLines(a) + RenderLines(b)
  {
  }

  /** The lines the second loop writes for one sample. */
  lemma SampleLines(id: string, paths: map<Direction, string>, pairedEnd: bool)
    ensures RenderLines(SampleRows(id, paths, pairedEnd))
            == if pairedEnd && Forward in paths && Reverse in paths then
                 [RowLine(Row(id, paths[Forward], Forward)), RowLine(Row(id, paths[Reverse], Reverse))]
               else if !pairedEnd && Forward in paths then
                 [RowLine(Row(id, paths[Forward], Forward))]
               else []
  {
  }

  /** Writing the lines of `order[j]` extends the manifest to the samples `order[..j + 1]`. */
  lemma WriteSampleStep(head: seq<string>, lines: seq<string>, order: seq<string>, j: nat,
                        paths: map<string, map<Direction, string>>, pairedEnd: bool)
    requires j < |order| && forall id :: id in order ==> id in paths
    requires lines == head + RenderLines(EmitRows(order[..j], paths, pairedEnd))
    ensures var id := order[j];
      var written := if pairedEnd && Forward in paths[id] && Reverse in paths[id] then
                       [RowLine(Row(id, paths[id][Forward], Forward)), RowLine(Row(id, paths[id][Reverse], Reverse))]
                     else if !pairedEnd && Forward in paths[id] then
                       [RowLine(Row(id, paths[id][Forward], Forward))]
                     else [];
      lines + written == head + RenderLines(EmitRows(order[..j + 1], paths, pairedEnd))
  {
    var id := order[j];
    EmitRowsStep(order, j, paths, pairedEnd);
    RenderLinesConcat(EmitRows(order[..j], paths, pairedEnd), SampleRows(id, paths[id], pairedEnd));
    SampleLines(id, paths[id], pairedEnd);
  }

  lemma BuildSamplesStep(vs: seq<Visit>, i: nat)
    requires i < |vs|
    ensures BuildSamples(vs[..i + 1]) == Record(BuildSamples(vs[..i]), vs[i])
  {
    assert vs[..i + 1][..i] == vs[..i];
  }

  /** `Record` of a marked name, in the two steps the loop takes: create the inner dict, then assign. */
  lemma RecordRead(s: Samples, id: string, d: Direction, path: string)
    ensures var paths := if id in s.paths then s.paths else s.paths[id := map[]];
      Record(s, Visit(Some(Read(id, d)), path))
      == Samples(if id in s.paths then s.order else s.order + [id], paths[id := paths[id][d := path]])
  {
    if id !in s.paths {
      assert map[][d := path] == map[d := path];
    }
  }

  lemma EmitRowsStep(order: seq<string>, j: nat, paths: map<string, map<Direction, string>>, pairedEnd: bool)
    requires j < |order| && forall id :: id in order ==> id in paths
    ensures forall id :: id in order[..j] ==> id in paths
    ensures EmitRows(order[..j + 1], paths, pairedEnd)
            == EmitRows(order[..j], paths, pairedEnd) + SampleRows(order[j], paths[order[j]], pairedEnd)
  {
    assert order[..j + 1][..j] == order[..j];
    assert forall id :: id in order[..j] ==> id in order;
  }

  /**
   * The first loop of `generate_manifest`: fills the insertion-ordered sample
   * dictionary (`order` lists its keys) from the sorted FASTQ names.
   */
  method CollectSamples(fastqFiles: seq<string>, absPath: string -> string)
    returns (order: seq<string>, sampleDict: map<string, map<Direction, string>>)
    ensures Samples(order, sampleDict) == BuildSamples(Visits(fastqFiles, absPath))
  {
    ghost var visits := Visits(fastqFiles, absPath);
    order, sampleDict := [], map[];
    for i := 0 to |fastqFiles|
      invariant Samples(order, sampleDict) == BuildSamples(visits[..i])
    {
      var f := fastqFiles[i];
      ghost var before := Samples(order, sampleDict);
      BuildSamplesStep(visits, i);
      var read := Classify(f);
      assert visits[i] == Visit(read, absPath(f));
      if read.None? {
        continue;
      }
      var sampleId, direction := read.value.sampleId, read.value.direction;
      RecordRead(before, sampleId, direction, absPath(f));
      if sampleId !in sampleDict {
        sampleDict := sampleDict[sampleId := map[]];
        order := order + [sampleId];
      }
      sampleDict := sampleDict[sampleId := sampleDict[sampleId][direction := absPath(f)]];
    }
    assert visits[..|fastqFiles|] == visits;
  }

  /**
   * The second loop of `generate_manifest`: appends to the lines written so far
   * the rows of every sample, in the dictionary's insertion order.
   */
  method WriteRows(written: seq<string>, order: seq<string>,
                   sampleDict: map<string, map<Direction, string>>, pairedEnd: bool)
    returns (lines: seq<string>)
    requires forall id :: id in order ==> id in sampleDict
    ensures lines == written + RenderLines(EmitRows(order, sampleDict, pairedEnd))
  {
    lines := written;
    assert order[..0] == [];
    for j := 0 to |order|
      invariant lines == written + RenderLines(EmitRows(order[..j], sampleDict, pairedEnd))
    {
      var sampleId := order[j];
      var paths := sampleDict[sampleId];
      WriteSampleStep(written, lines, order, j, sampleDict, pairedEnd);
      if pairedEnd && Forward in paths && Reverse in paths {
        lines := lines + [RowLine(Row(sampleId, paths[Forward], Forward))];
        lines := lines + [RowLine(Row(sampleId, paths[Reverse], Reverse))];
      } else if !pairedEnd && Forward in paths {
        lines := lines + [RowLine(Row(sampleId, paths[Forward], Forward))];
      }
    }
    assert order[..|order|] == order;
  }

  /**
   * `generate_manifest`: writes the header, fills the sample dictionary from the
   * sorted FASTQ names, then writes each sample's rows.
   */
  method GenerateManifest(listing: seq<string>, pairedEnd: bool, absPath: string -> string)
    returns (lines: seq<string>)
    ensures lines == ManifestLines(listing, pairedEnd, absPath)
  {
    var fastqFiles := FastqFiles(listing);
    var order, sampleDict := CollectSamples(fastqFiles, absPath);
    assert WellFormed(Samples(order, sampleDict));
    lines := WriteRows([HeaderLine], order, sampleDict, pairedEnd);
  }

  // ---------------------------------------------------------------------------
  // Which file's path is stored

  /** Some visited name is a read of sample `id` in direction `d`. */
  ghost predicate HasRead(vs: seq<Visit>, id: string, d: Direction) {
    exists k :: 0 <= k < |vs| && vs[k].read == Some(Read(id, d))
  }

  lemma HasReadSnoc(vs: seq<Visit>, id: string, d: Direction)
    requires vs != []
    ensures HasRead(vs, id, d) <==> HasRead(vs[..|vs| - 1], id, d) || vs[|vs| - 1].read == Some(Read(id, d))
  {
    var n := |vs| - 1;
    if HasRead(vs, id, d) {
      var k :| 0 <= k < |vs| && vs[k].read == Some(Read(id, d));
      if k < n {
        assert vs[..n][k] == vs[k];
      }
    }
    if HasRead(vs[..n], id, d) {
      var k :| 0 <= k < n && vs[..n][k].read == Some(Read(id, d));
      assert vs[k] == vs[..n][k];
    }
  }

  /** The index of the last visited read of sample `id` in direction `d`. */
  ghost function LastRead(vs: seq<Visit>, id: string, d: Direction): (k: nat)
    requires HasRead(vs, id, d)
    ensures k < |vs| && vs[k].read == Some(Read(id, d))
    ensures forall j :: k < j < |vs| ==> vs[j].read != Some(Read(id, d))
    decreases |vs|
  {
    var n := |vs| - 1;
    HasReadSnoc(vs, id, d);
    if vs[n].read == Some(Read(id, d)) then n
    else
      var k := LastRead(vs[..n], id, d);
      assert vs[k] == vs[..n][k];
      assert forall j :: k < j < n ==> vs[j] == vs[..n][j];
      k
  }

  /** How one `Record` step changes the entry for (`id`, `d`). */
  lemma RecordAt(s: Samples, v: Visit, id: string, d: Direction)
    ensures (id in Record(s, v).paths && d in Record(s, v).paths[id])
            <==> v.read == Some(Read(id, d)) || (id in s.paths && d in s.paths[id])
    ensures v.read == Some(Read(id, d)) ==> Record(s, v).paths[id][d] == v.path
    ensures v.read != Some(Read(id, d)) && id in s.paths && d in s.paths[id] ==>
              Record(s, v).paths[id][d] == s.paths[id][d]
    ensures id in Record(s, v).paths <==> id in s.paths || NamesSample(v, id)
    ensures s.order <= Record(s, v).order
    ensures |Record(s, v).order| <= |s.order| + 1
    ensures WellFormed(s) ==> WellFormed(Record(s, v))
  {
  }

  /**
   * The dictionary holds a path for (`id`, `d`) exactly when some visited name is
   * such a read, and the path is that of the last one in visiting order.
   */
  lemma {:induction false} StoredPaths(vs: seq<Visit>, id: string, d: Direction)
    ensures (id in BuildSamples(vs).paths && d in BuildSamples(vs).paths[id]) <==> HasRead(vs, id, d)
    ensures HasRead(vs, id, d) ==> BuildSamples(vs).paths[id][d] == vs[LastRead(vs, id, d)].path
    decreases |vs|
  {
    if vs != [] {
      var n := |vs| - 1;
      StoredPaths(vs[..n], id, d);
      HasReadSnoc(vs, id, d);
      RecordAt(BuildSamples(vs[..n]), vs[n], id, d);
    }
  }

  // ---------------------------------------------------------------------------
  // Order of the samples

  /** The visit is a marked read of sample `id`. */
  predicate NamesSample(v: Visit, id: string) {
    v.read.Some? && v.read.value.sampleId == id
  }

  ghost predicate Mentions(vs: seq<Visit>, id: string) {
    exists k :: 0 <= k < |vs| && NamesSample(vs[k], id)
  }

  lemma MentionsSnoc(vs: seq<Visit>, id: string)
    requires vs != []
    ensures Mentions(vs, id) <==> Mentions(vs[..|vs| - 1], id) || NamesSample(vs[|vs| - 1], id)
  {
    var n := |vs| - 1;
    if Mentions(vs, id) {
      var k :| 0 <= k < |vs| && NamesSample(vs[k], id);
      if k < n {
        assert vs[..n][k] == vs[k];
      }
    }
    if Mentions(vs[..n], id) {
      var k :| 0 <= k < n && NamesSample(vs[..n][k], id);
      assert vs[k] == vs[..n][k];
    }
  }

  /** The index of the first visited name that is a read of sample `id`. */
  ghost function FirstMention(vs: seq<Visit>, id: string): (k: nat)
    requires Mentions(vs, id)
    ensures k < |vs| && NamesSample(vs[k], id)
    ensures forall j :: 0 <= j < k ==> !NamesSample(vs[j], id)
    decreases |vs|
  {
    if NamesSample(vs[0], id) then 0
    else
      assert Mentions(vs[1..], id) by {
        var k :| 0 <= k < |vs| && NamesSample(vs[k], id);
        assert vs[1..][k - 1] == vs[k];
      }
      var k := FirstMention(vs[1..], id);
      assert forall j :: 0 < j <= k ==> vs[j] == vs[1..][j - 1];
      1 + k
  }

  lemma FirstMentionSnoc(vs: seq<Visit>, id: string)
    requires vs != [] && Mentions(vs[..|vs| - 1], id)
    ensures Mentions(vs, id) && FirstMention(vs, id) == FirstMention(vs[..|vs| - 1], id)
  {
    var n := |vs| - 1;
    MentionsSnoc(vs, id);
    var k, k' := FirstMention(vs, id), FirstMention(vs[..n], id);
    assert vs[k'] == vs[..n][k'];
    assert k <= k';
    assert vs[..n][k] == vs[k];
  }

  /** The dictionary's keys are exactly the sample ids that some visited name mentions. */
  lemma {:induction false} KeysAreMentioned(vs: seq<Visit>)
    ensures forall id :: id in BuildSamples(vs).order <==> Mentions(vs, id)
    decreases |vs|
  {
    if vs != [] {
      var n := |vs| - 1;
      KeysAreMentioned(vs[..n]);
      forall id ensures id in BuildSamples(vs).order <==> Mentions(vs, id) {
        MentionsSnoc(vs, id);
      }
    }
  }

  /** A sample id that only the last visited name mentions is first mentioned there. */
  lemma FirstMentionNew(vs: seq<Visit>, id: string)
    requires vs != [] && !Mentions(vs[..|vs| - 1], id) && NamesSample(vs[|vs| - 1], id)
    ensures Mentions(vs, id) && FirstMention(vs, id) == |vs| - 1
  {
    var n := |vs| - 1;
    forall j | 0 <= j < n ensures !NamesSample(vs[j], id) {
      assert vs[j] == vs[..n][j];
    }
  }

  /** The dictionary's keys come in the order in which the visited names first mention them. */
  lemma {:induction false} OrderByFirstMention(vs: seq<Visit>)
    ensures forall id :: id in BuildSamples(vs).order ==> Mentions(vs, id)
    ensures forall i, j :: 0 <= i < j < |BuildSamples(vs).order| ==>
              FirstMention(vs, BuildSamples(vs).order[i]) < FirstMention(vs, BuildSamples(vs).order[j])
    decreases |vs|
  {
    KeysAreMentioned(vs);
    if vs != [] {
      var n := |vs| - 1;
      var prefix := vs[..n];
      OrderByFirstMention(prefix);
      KeysAreMentioned(prefix);
      var old', new' := BuildSamples(prefix).order, BuildSamples(vs).order;
      if new' == old' {
        forall i, j | 0 <= i < j < |new'|
          ensures FirstMention(vs, new'[i]) < FirstMention(vs, new'[j])
        {
          FirstMentionSnoc(vs, new'[i]);
          FirstMentionSnoc(vs, new'[j]);
        }
      } else {
        var id := vs[n].read.value.sampleId;
        assert new' == old' + [id];
        FirstMentionNew(vs, id);
        forall i, j | 0 <= i < j < |new'|
          ensures FirstMention(vs, new'[i]) < FirstMention(vs, new'[j])
        {
          assert new'[i] == old'[i] && Mentions(prefix, old'[i]);
          FirstMentionSnoc(vs, new'[i]);
          if j < |old'| {
            assert new'[j] == old'[j];
            FirstMentionSnoc(vs, new'[j]);
          } else {
            assert new'[j] == id;
            assert FirstMention(prefix, old'[i]) < n;
          }
        }
      }
    }
  }

  // ---------------------------------------------------------------------------
  // The rows of one sample

  /** The rows that belong to sample `id`, in order. */
  function RowsFor(rows: seq<Row>, id: string): seq<Row> {
    if rows == [] then []
    else (if rows[0].sampleId == id then [rows[0]] else []) + RowsFor(rows[1..], id)
  }

  lemma {:induction false} RowsForConcat(a: seq<Row>, b: seq<Row>, id: string)
    ensures RowsFor(a + b, id) == RowsFor(a, id) + RowsFor(b, id)
    decreases |a|
  {
    if a != [] {
      assert (a + b)[0] == a[0];
      assert (a + b)[1..] == a[1..] + b;
      RowsForConcat(a[1..], b, id);
    } else {
      assert a + b == b;
    }
  }

  lemma RowsForSample(x: string, paths: map<Direction, string>, pairedEnd: bool, id: string)
    ensures RowsFor(SampleRows(x, paths, pairedEnd), id) == if x == id then SampleRows(x, paths, pairedEnd) else []
  {
    var rows := SampleRows(x, paths, pairedEnd);
    assert forall r :: r in rows ==> r.sampleId == x;
    if |rows| == 2 {
      assert rows[1..] == [rows[1]] && rows[1..][1..] == [];
      assert RowsFor(rows[1..][1..], id) == [];
      assert RowsFor(rows[1..], id) == (if x == id then [rows[1]] else []);
      assert rows == [rows[0], rows[1]];
    } else if |rows| == 1 {
      assert rows[1..] == [];
      assert rows == [rows[0]];
    }
  }

  lemma {:induction false} RowsForEmit(order: seq<string>, paths: map<string, map<Direction, string>>,
                                       pairedEnd: bool, id: string)
    requires NoDuplicates(order) && forall x :: x in order ==> x in paths
    ensures RowsFor(EmitRows(order, paths, pairedEnd), id)
            == if id in order then SampleRows(id, paths[id], pairedEnd) else []
    decreases |order|
  {
    if order != [] {
      var n := |order| - 1;
      var last := order[n];
      assert order == order[..n] + [last];
      assert forall x :: x in order[..n] ==> x in order;
      var head, tail := EmitRows(order[..n], paths, pairedEnd), SampleRows(last, paths[last], pairedEnd);
      assert EmitRows(order, paths, pairedEnd) == head + tail;
      RowsForEmit(order[..n], paths, pairedEnd, id);
      RowsForConcat(head, tail, id);
      RowsForSample(last, paths[last], pairedEnd, id);
      if id == last {
        assert id !in order[..n];
        assert RowsFor(head, id) == [];
      } else {
        assert id in order <==> id in order[..n];
        assert RowsFor(tail, id) == [];
      }
    }
  }

  /**
   * For every sample id, the manifest holds: in paired-end mode, a forward row
   * then a reverse row when both directions were seen and nothing otherwise; in
   * single-end mode, one forward row when a forward read was seen and nothing
   * otherwise. Each row carries the path of the last matching file in sorted order.
   * `HasReadIffNamed` restates "a read was seen" as "some sorted file is
   * classified as that read".
   */
  lemma ManifestRowsForSample(listing: seq<string>, pairedEnd: bool, absPath: string -> string, id: string)
    ensures var files := FastqFiles(listing);
      var vs := Visits(files, absPath);
      var fwd, rev := HasRead(vs, id, Forward), HasRead(vs, id, Reverse);
      RowsFor(ManifestRows(listing, pairedEnd, absPath), id)
      == if pairedEnd && fwd && rev then
           [Row(id, absPath(files[LastRead(vs, id, Forward)]), Forward),
            Row(id, absPath(files[LastRead(vs, id, Reverse)]), Reverse)]
         else if !pairedEnd && fwd then
           [Row(id, absPath(files[LastRead(vs, id, Forward)]), Forward)]
         else []
  {
    var files := FastqFiles(listing);
    var vs := Visits(files, absPath);
    var s := BuildSamples(vs);
    StoredPaths(vs, id, Forward);
    StoredPaths(vs, id, Reverse);
    RowsForEmit(s.order, s.paths, pairedEnd, id);
  }

  /** A read is recorded for a visited name exactly when the name carries a marker. */
  lemma HasReadIffNamed(files: seq<string>, absPath: string -> string, id: string, d: Direction)
    ensures HasRead(Visits(files, absPath), id, d)
            <==> exists k :: 0 <= k < |files| && Classify(files[k]) == Some(Read(id, d))
  {
    var vs := Visits(files, absPath);
    if HasRead(vs, id, d) {
      var k :| 0 <= k < |vs| && vs[k].read == Some(Read(id, d));
      assert Classify(files[k]) == Some(Read(id, d));
    }
    if exists k :: 0 <= k < |files| && Classify(files[k]) == Some(Read(id, d)) {
      var k :| 0 <= k < |files| && Classify(files[k]) == Some(Read(id, d));
      assert vs[k].read == Some(Read(id, d));
    }
  }

  // ---------------------------------------------------------------------------
  // Order of the rows

  /** The index of `id` in `order`. */
  function Position(order: seq<string>, id: string): (p: nat)
    requires id in order
    ensures p < |order| && order[p] == id
    ensures forall k :: 0 <= k < p ==> order[k] != id
  {
    if order[0] == id then 0 else 1 + Position(order[1..], id)
  }

  /** Every row belongs to a sample of `order`, and rows of different samples come in the order of `order`. */
  ghost predicate Grouped(rows: seq<Row>, order: seq<string>) {
    && (forall r :: r in rows ==> r.sampleId in order)
    && forall i, j :: 0 <= i < j < |rows| && rows[i].sampleId != rows[j].sampleId ==>
         Position(order, rows[i].sampleId) < Position(order, rows[j].sampleId)
  }

  /** Appending the rows of a new last sample keeps the rows grouped. */
  lemma GroupedSnoc(head: seq<Row>, tail: seq<Row>, prefix: seq<string>, last: string)
    requires Grouped(head, prefix) && last !in prefix
    requires forall r :: r in tail ==> r.sampleId == last
    ensures Grouped(head + tail, prefix + [last])
  {
    var order, rows := prefix + [last], head + tail;
    forall x | x in prefix ensures x in order && Position(order, x) == Position(prefix, x) < |prefix| {
      var p := Position(prefix, x);
      assert order[p] == prefix[p];
    }
    assert Position(order, last) == |prefix|;
    forall r | r in rows ensures r.sampleId in order {
      if r in head {
      } else {
        assert r in tail;
      }
    }
    forall i, j | 0 <= i < j < |rows| && rows[i].sampleId != rows[j].sampleId
      ensures Position(order, rows[i].sampleId) < Position(order, rows[j].sampleId)
    {
      if j < |head| {
        assert rows[i] == head[i] && rows[j] == head[j];
        assert head[i] in head && head[j] in head;
      } else {
        assert rows[j] == tail[j - |head|] && tail[j - |head|] in tail;
        if i < |head| {
          assert rows[i] == head[i] && head[i] in head;
        }
      }
    }
  }

  /** Rows of different samples come in the order of their samples in `order`. */
  lemma {:induction false} EmitRowsGrouped(order: seq<string>, paths: map<string, map<Direction, string>>, pairedEnd: bool)
    requires NoDuplicates(order) && forall x :: x in order ==> x in paths
    ensures Grouped(EmitRows(order, paths, pairedEnd), order)
    decreases |order|
  {
    if order != [] {
      var n := |order| - 1;
      var prefix, last := order[..n], order[n];
      assert order == prefix + [last];
      assert forall x :: x in prefix ==> x in order;
      EmitRowsGrouped(prefix, paths, pairedEnd);
      var tail := SampleRows(last, paths[last], pairedEnd);
      assert forall r :: r in tail ==> r.sampleId == last;
      GroupedSnoc(EmitRows(prefix, paths, pairedEnd), tail, prefix, last);
    }
  }

  /** Samples earlier in the dictionary's order were mentioned first. */
  lemma EarlierKeyMentionedFirst(vs: seq<Visit>, a: string, b: string)
    requires a in BuildSamples(vs).order && b in BuildSamples(vs).order
    requires Position(BuildSamples(vs).order, a) < Position(BuildSamples(vs).order, b)
    ensures Mentions(vs, a) && Mentions(vs, b) && FirstMention(vs, a) < FirstMention(vs, b)
  {
    OrderByFirstMention(vs);
    var order := BuildSamples(vs).order;
    var p, q := Position(order, a), Position(order, b);
    assert order[p] == a && order[q] == b;
  }

  /**
   * Rows of different samples appear in the order in which the sorted listing
   * first mentions their sample ids (the insertion order of the dictionary).
   */
  lemma ManifestFollowsFirstMention(listing: seq<string>, pairedEnd: bool, absPath: string -> string)
    ensures forall i :: 0 <= i < |ManifestRows(listing, pairedEnd, absPath)| ==>
              Mentions(Visits(FastqFiles(listing), absPath), ManifestRows(listing, pairedEnd, absPath)[i].sampleId)
    ensures forall i, j :: 0 <= i < j < |ManifestRows(listing, pairedEnd, absPath)| &&
                           ManifestRows(listing, pairedEnd, absPath)[i].sampleId
                           != ManifestRows(listing, pairedEnd, absPath)[j].sampleId ==>
              FirstMention(Visits(FastqFiles(listing), absPath), ManifestRows(listing, pairedEnd, absPath)[i].sampleId)
              < FirstMention(Visits(FastqFiles(listing), absPath), ManifestRows(listing, pairedEnd, absPath)[j].sampleId)
  {
    var vs := Visits(FastqFiles(listing), absPath);
    var s := BuildSamples(vs);
    var rows := ManifestRows(listing, pairedEnd, absPath);
    assert rows == EmitRows(s.order, s.paths, pairedEnd);
    KeysAreMentioned(vs);
    EmitRowsGrouped(s.order, s.paths, pairedEnd);
    forall i | 0 <= i < |rows| ensures Mentions(vs, rows[i].sampleId) {
      assert rows[i] in rows;
    }
    forall i, j | 0 <= i < j < |rows| && rows[i].sampleId != rows[j].sampleId
      ensures FirstMention(vs, rows[i].sampleId) < FirstMention(vs, rows[j].sampleId)
    {
      assert rows[i] in rows && rows[j] in rows;
      EarlierKeyMentionedFirst(vs, rows[i].sampleId, rows[j].sampleId);
    }
  }
}
