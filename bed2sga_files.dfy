/*
 * The file-reading half of mscan_bed2sga.c: fgets on a stream, the growing line buffer of
 * process_bed, the loop that fills the accession table in process_ac and the loop that turns
 * every BED line into an SGA record in process_bed.  A file is the text a Stream holds.
 */
module Bed2SgaFiles {
  import opened Options
  import opened CText
  import opened Chains
  import HashTable
  import TextIo
  import opened Bed2Sga

  // ---------------------------------------------------------------------------
  // fgets

  /** Where the line that starts at p ends for fgets: past its '\n', or at the end of the text. */
  function NextEnd(text: string, p: nat): (q: nat)
    requires p <= |text|
    ensures p <= q <= |text| && (p < |text| ==> p < q)
    ensures forall k :: p <= k < q - 1 ==> text[k] != '\n'
    ensures q == |text| || text[q - 1] == '\n'
  {
    var e := TextIo.LineEnd(text, p);
    if e < |text| then e + 1 else e
  }

  /** A position before the end of the line starting at p has the same line end. */
  lemma NextEndWithin(text: string, p: nat, m: nat)
    requires p <= |text| && p <= m < NextEnd(text, p)
    ensures NextEnd(text, m) == NextEnd(text, p)
  {
  }

  /** Where fgets(buf, n, stream) stops reading from p: after the '\n' that ends the line,
      after n - 1 characters (the last place is the NUL), or at the end of the text. */
  function FgetsEnd(text: string, p: nat, n: nat): (q: nat)
    requires p <= |text| && n >= 2
    ensures p <= q <= |text| && (p < |text| ==> p < q)
    ensures q <= p + n - 1
    ensures q == NextEnd(text, p) || (q == p + n - 1 && q < NextEnd(text, p))
  {
    var e := NextEnd(text, p);
    if e <= p + n - 1 then e else p + n - 1
  }

  /** fgets: reads characters into a buffer of n until the '\n', the (n - 1)-th character or
      the end of the text; returns NULL (None) when nothing was left to read. */
  method Fgets(st: TextIo.Stream, n: nat) returns (r: Option<string>)
    requires st.Valid() && n >= 2
    modifies st
    ensures st.Valid()
    ensures old(st.pos) == |st.text| ==> r == None && st.pos == old(st.pos)
    ensures old(st.pos) < |st.text| ==>
      st.pos == FgetsEnd(st.text, old(st.pos), n) && r == Some(st.text[old(st.pos)..st.pos])
  {
    var buf := new char[n](_ => '\0');
    var i := 0;
    ghost var p := st.pos;
    ghost var e := TextIo.LineEnd(st.text, p);
    while i < n - 1
      invariant st.Valid() && st.pos == p + i && i <= n - 1 && st.pos <= e
      invariant buf[..i] == st.text[p..st.pos]
    {
      ghost var got := buf[..i];
      var c := st.Getc();
      if c.None? {
        break;
      }
      buf[i] := c.value;
      assert buf[..i + 1] == got + [c.value];
      assert st.text[p..st.pos] == st.text[p..st.pos - 1] + [c.value];
      i := i + 1;
      if c.value == '\n' {
        assert st.text[st.pos - 1] == '\n';
        break;
      }
    }
    if i == 0 {
      return None;
    }
    r := Some(buf[..i]);
  }

  // ---------------------------------------------------------------------------
  // The line loop of process_bed

  /** One round of process_bed's growth loop: the buffer of bLen characters came back full
      without a '\n', so it doubles and fgets reads on behind the cLen characters there. */
  method ReadOn(st: TextIo.Stream, ghost p: nat, s: string, bLen: nat) returns (s': string, bLen': nat)
    requires st.Valid() && p < st.pos <= |st.text| && s == st.text[p..st.pos] && |s| + 1 == bLen
    requires st.pos < NextEnd(st.text, p) || st.pos == |st.text|
    modifies st
    ensures st.Valid() && bLen' == 2 * bLen && old(st.pos) <= st.pos && s' == st.text[p..st.pos]
    ensures old(st.pos) == |st.text| ==> st.pos == old(st.pos) && s' == s
    ensures old(st.pos) < |st.text| ==> old(st.pos) < st.pos <= NextEnd(st.text, p)
    ensures st.pos < NextEnd(st.text, p) ==> |s'| + 1 == bLen' && s'[|s'| - 1] != '\n'
  {
    bLen' := bLen * 2;
    ghost var m := st.pos;
    if m < NextEnd(st.text, p) {
      NextEndWithin(st.text, p, m);
    }
    var res := Fgets(st, bLen' - |s|);
    s' := s;
    if res.Some? {
      assert st.text[p..st.pos] == st.text[p..m] + res.value;
      s' := s + res.value;
    }
  }

  /** The reading at the head of process_bed's loop: fgets into the buffer of bLen characters,
      and as long as it came back full without a '\n', doubling the buffer and reading on
      behind what is there.  The buffer keeps its size for the next line.  The text has no
      NUL, so strlen is the number of characters read. */
  method ReadLongLine(st: TextIo.Stream, bLen: nat) returns (line: Option<string>, bLen': nat)
    requires st.Valid() && bLen >= 2
    modifies st
    ensures st.Valid() && bLen' >= bLen
    ensures old(st.pos) == |st.text| ==> line == None && st.pos == old(st.pos)
    ensures old(st.pos) < |st.text| ==>
      st.pos == NextEnd(st.text, old(st.pos)) && line == Some(st.text[old(st.pos)..st.pos])
  {
    ghost var p := st.pos;
    var res := Fgets(st, bLen);
    bLen' := bLen;
    if res.None? {
      return None, bLen';
    }
    var s := res.value;
    var cLen := |s|;
    while cLen + 1 == bLen' && s[cLen - 1] != '\n'
      invariant st.Valid() && p < st.pos <= NextEnd(st.text, p) && bLen' >= bLen
      invariant s == st.text[p..st.pos] && cLen == |s|
      invariant st.pos < NextEnd(st.text, p) ==> cLen + 1 == bLen' && s[cLen - 1] != '\n'
      decreases |st.text| - st.pos, if cLen + 1 == bLen' then 1 else 0
    {
      s, bLen' := ReadOn(st, p, s, bLen');
      cLen := |s|;
    }
    line := Some(s);
  }

  /** The lines process_bed takes from p: each through its '\n', the last one up to the end of
      the text. */
  function BedLines(text: string, p: nat): seq<string>
    requires p <= |text|
    decreases |text| - p
  {
    if p == |text| then [] else [text[p..NextEnd(text, p)]] + BedLines(text, NextEnd(text, p))
  }

  /** The lines lose nothing: put back together they are the text, and each holds a '\n' only
      as its last character. */
  lemma {:induction false} BedLinesRebuildText(text: string, p: nat)
    requires p <= |text|
    ensures TextIo.Concat(BedLines(text, p)) == text[p..]
    ensures forall k, j :: 0 <= k < |BedLines(text, p)| && 0 <= j < |BedLines(text, p)[k]| - 1 ==>
      BedLines(text, p)[k][j] != '\n'
    decreases |text| - p
  {
    if p < |text| {
      var q := NextEnd(text, p);
      BedLinesRebuildText(text, q);
      assert text[p..] == text[p..q] + text[q..];
      var ls := BedLines(text, p);
      assert ls[1..] == BedLines(text, q);
      forall k, j | 0 <= k < |ls| && 0 <= j < |ls[k]| - 1 ensures ls[k][j] != '\n' {
        if k == 0 {
          assert ls[0][j] == text[p + j];
        } else {
          assert ls[k] == BedLines(text, q)[k - 1];
        }
      }
    }
  }

  /** What process_bed prints for one BED line ("%s\t%s\t%lu\t%c\t1\t%s\t%d\n"): the accession
      the table holds for the chromosome (NULL, None, when it has none), the SGA position, the
      strand, the tag and the score. */
  datatype SgaRecord = SgaRecord(ac: Option<Bytes>, pos: int, strand: char, tag: string, score: int)

  /** What a reading loop produced before it stopped: its outputs in order, and the failure
      that ended the program, if one did. */
  datatype Run<T> = Run(out: seq<T>, failure: Option<Failure>)

  /** One more output before those of a run. */
  function Prepend<T>(x: T, r: Run<T>): (r': Run<T>)
    ensures |r'.out| == |r.out| + 1 && r'.out[0] == x && r'.out[1..] == r.out && r'.failure == r.failure
  {
    Run([x] + r.out, r.failure)
  }

  /** Outputs already made before a run. */
  function Extend<T>(xs: seq<T>, r: Run<T>): Run<T>
  {
    Run(xs + r.out, r.failure)
  }

  lemma ExtendPrepend<T>(xs: seq<T>, x: T, r: Run<T>)
    ensures Extend(xs, Prepend(x, r)) == Extend(xs + [x], r)
  {
    assert xs + ([x] + r.out) == (xs + [x]) + r.out;
  }

  /** The record of a parsed BED line given what the table holds for its chromosome. */
  function Record(b: BedLine, ac: Option<Bytes>): (r: SgaRecord)
    ensures r.pos == (if b.strand == '+' then b.start + 1 else b.end)
  {
    SgaRecord(ac, SgaPosition(b), b.strand, b.tag, b.score)
  }

  /** What a lookup finds in a table whose buckets are `chains` (HashTable.Table.Get on the
      table's contents): the first node of the key's bucket that carries the key. */
  function Find(chains: seq<Chain>, digest: Digest, key: Bytes): Option<Bytes>
    requires |chains| > 0
  {
    ChainLookup(chains[Bucket(digest, key, |chains|)], key)
  }

  /** What process_bed makes of one line, looking up in the buckets `chains`: the record, or
      the failure that stops the program. */
  function LineRecord(line: string, chains: seq<Chain>, digest: Digest): (r: Result<SgaRecord>)
    requires |chains| > 0
    ensures r.Ok? <==> ParseBed(Strip(line)).Ok?
    ensures r.Fail? ==> r.failure == ParseBed(Strip(line)).failure
    ensures r.Ok? ==>
      var b := ParseBed(Strip(line)).value;
      && r.value.ac == Find(chains, digest, CKey(b.seqId))
      && r.value.pos == (if b.strand == '+' then b.start + 1 else b.end)
      && r.value.strand == b.strand && r.value.tag == b.tag && r.value.score == b.score
  {
    match ParseBed(Strip(line))
    case Fail(x) => Fail(x)
    case Ok(b) => Ok(Record(b, Find(chains, digest, LookupKey(b))))
  }

  /** What process_bed does with its lines: a record for each line until one cannot be taken. */
  function Convert(lines: seq<string>, chains: seq<Chain>, digest: Digest): Run<SgaRecord>
    requires |chains| > 0
  {
    if lines == [] then Run([], None)
    else
      match LineRecord(lines[0], chains, digest)
      case Fail(x) => Run([], Some(x))
      case Ok(r) => Prepend(r, Convert(lines[1..], chains, digest))
  }

  /** The body of process_bed's loop for one line: strip the '\n', take the fields, compute the
      position and look the chromosome up. */
  method ConvertLine(line: string, table: HashTable.Table) returns (r: Result<SgaRecord>)
    requires table.Valid()
    ensures r == LineRecord(line, table.Chains(), table.digest)
  {
    var b := ParseBedLine(Strip(line));
    if b.Fail? {
      return Fail(b.failure);
    }
    var ac := table.Lookup(LookupKey(b.value));
    r := Ok(Record(b.value, ac));
  }

  /** A failure stops the conversion: every record comes from a line that parses, in order,
      and the lines after the failing one are not looked at. */
  lemma {:induction false} ConvertSpec(lines: seq<string>, chains: seq<Chain>, digest: Digest)
    requires |chains| > 0
    ensures var r := Convert(lines, chains, digest);
      && |r.out| <= |lines|
      && (r.failure.None? ==> |r.out| == |lines|)
      && (r.failure.Some? ==> |r.out| < |lines| && LineRecord(lines[|r.out|], chains, digest) == Fail(r.failure.value))
      && forall k :: 0 <= k < |r.out| ==> LineRecord(lines[k], chains, digest) == Ok(r.out[k])
  {
    ConvertStops(lines, chains, digest);
    ConvertOutputs(lines, chains, digest);
  }

  /** Where the conversion stops: at the end of the lines, or at the first line that fails. */
  lemma {:induction false} ConvertStops(lines: seq<string>, chains: seq<Chain>, digest: Digest)
    requires |chains| > 0
    ensures var r := Convert(lines, chains, digest);
      && |r.out| <= |lines|
      && (r.failure.None? ==> |r.out| == |lines|)
      && (r.failure.Some? ==> |r.out| < |lines| && LineRecord(lines[|r.out|], chains, digest) == Fail(r.failure.value))
    decreases |lines|
  {
    if lines != [] && LineRecord(lines[0], chains, digest).Ok? {
      ConvertStops(lines[1..], chains, digest);
      var r := Convert(lines, chains, digest);
      if r.failure.Some? {
        assert lines[|r.out|] == lines[1..][|r.out| - 1];
      }
    }
  }

  /** Each record comes from the line in the same place. */
  lemma {:induction false} ConvertOutputs(lines: seq<string>, chains: seq<Chain>, digest: Digest)
    requires |chains| > 0
    ensures var r := Convert(lines, chains, digest);
      forall k :: 0 <= k < |r.out| ==> k < |lines| && LineRecord(lines[k], chains, digest) == Ok(r.out[k])
    decreases |lines|
  {
    if lines != [] && LineRecord(lines[0], chains, digest).Ok? {
      ConvertOutputs(lines[1..], chains, digest);
      var r := Convert(lines, chains, digest);
      var r1 := Convert(lines[1..], chains, digest);
      assert r == Prepend(LineRecord(lines[0], chains, digest).value, r1);
      ConvertStops(lines, chains, digest);
      forall k | 1 <= k < |r.out| ensures k < |lines| && LineRecord(lines[k], chains, digest) == Ok(r.out[k]) {
        assert lines[k] == lines[1..][k - 1];
        assert r.out[k] == r1.out[k - 1];
      }
    }
  }

  /** The loop of process_bed: read each line, strip its '\n', take its fields, compute the
      position and look the chromosome up in the accession table.  A field that does not fit
      its buffer stops the program. */
  method ProcessBed(st: TextIo.Stream, table: HashTable.Table) returns (run: Run<SgaRecord>)
    requires st.Valid() && table.Valid()
    modifies st
    ensures st.Valid()
    ensures run == Convert(BedLines(st.text, old(st.pos)), table.Chains(), table.digest)
    ensures run.failure.None? ==> st.pos == |st.text|
  {
    var bLen := LineSize;
    var records: seq<SgaRecord> := [];
    ghost var all := BedLines(st.text, st.pos);
    ghost var chains := table.Chains();
    assert |chains| > 0;
    while true
      invariant st.Valid() && bLen >= 2
      invariant Convert(all, chains, table.digest)
        == Extend(records, Convert(BedLines(st.text, st.pos), chains, table.digest))
      decreases |st.text| - st.pos
    {
      ghost var p := st.pos;
      var line;
      line, bLen := ReadLongLine(st, bLen);
      if line.None? {
        return Run(records, None);
      }
      ghost var rest := BedLines(st.text, st.pos);
      assert BedLines(st.text, p) == [line.value] + rest;
      assert ([line.value] + rest)[1..] == rest;
      var rec := ConvertLine(line.value, table);
      if rec.Fail? {
        return Run(records, Some(rec.failure));
      }
      ExtendPrepend(records, rec.value, Convert(rest, chains, table.digest));
      records := records + [rec.value];
    }
  }

  // ---------------------------------------------------------------------------
  // process_ac

  /** How process_ac skips the first line of the accession file, as written: fgetc until the
      character read is '\n'.  At the end of the file fgetc keeps returning EOF, which is not
      '\n', so on a file without a '\n' from p on the loop never ends (None). */
  function SkipLineAsWritten(text: string, p: nat): (r: Option<nat>)
    requires p <= |text|
    ensures r.Some? ==> p < r.value <= |text| && text[r.value - 1] == '\n'
    ensures r.None? <==> forall k :: p <= k < |text| ==> text[k] != '\n'
  {
    var e := TextIo.LineEnd(text, p);
    if e < |text| then Some(e + 1) else None
  }

  /** An empty accession file, or one that is a single line without '\n', hangs process_ac. */
  lemma SkipLineHangs()
    ensures SkipLineAsWritten("", 0) == None
    ensures SkipLineAsWritten("chr_nb ac", 0) == None
  {
  }

  /** The skip with the end of the file handled: fgetc until '\n' or EOF. */
  method SkipFirstLine(st: TextIo.Stream)
    requires st.Valid()
    modifies st
    ensures st.Valid() && st.pos == NextEnd(st.text, old(st.pos))
  {
    ghost var p := st.pos;
    while true
      invariant st.Valid() && p <= st.pos <= NextEnd(st.text, p)
      invariant forall k :: p <= k < st.pos ==> st.text[k] != '\n'
      decreases |st.text| - st.pos
    {
      var c := st.Getc();
      if c.None? {
        return;
      }
      if c.value == '\n' {
        return;
      }
    }
  }

  /** Where the skip as written ends, the corrected skip ends too; it only differs where the
      skip as written never ends. */
  lemma SkipFirstLineAgrees(text: string, p: nat)
    requires p <= |text|
    ensures SkipLineAsWritten(text, p).Some? ==> SkipLineAsWritten(text, p).value == NextEnd(text, p)
    ensures SkipLineAsWritten(text, p).None? ==> NextEnd(text, p) == |text|
  {
  }

  /** The pieces process_ac reads from p with fgets into its buffer of LINE_SIZE characters:
      a line longer than that comes in several pieces, each taken as a row. */
  function Chunks(text: string, p: nat): seq<string>
    requires p <= |text|
    decreases |text| - p
  {
    if p == |text| then []
    else [text[p..FgetsEnd(text, p, LineSize)]] + Chunks(text, FgetsEnd(text, p, LineSize))
  }

  /** Every piece is a line of at most LINE_SIZE - 1 characters, or the first part of one. */
  lemma {:induction false} ChunksAreShort(text: string, p: nat)
    requires p <= |text|
    ensures TextIo.Concat(Chunks(text, p)) == text[p..]
    ensures forall k :: 0 <= k < |Chunks(text, p)| ==> 0 < |Chunks(text, p)[k]| < LineSize
    decreases |text| - p
  {
    if p < |text| {
      var q := FgetsEnd(text, p, LineSize);
      ChunksAreShort(text, q);
      assert text[p..] == text[p..q] + text[q..];
      var cs := Chunks(text, p);
      assert cs[1..] == Chunks(text, q);
      forall k | 1 <= k < |cs| ensures 0 < |cs[k]| < LineSize {
        assert cs[k] == Chunks(text, q)[k - 1];
      }
    }
  }

  /** The rows process_ac adds, in order, until a field does not fit its buffer. */
  function AcRows(chunks: seq<string>): Run<AcRow>
  {
    if chunks == [] then Run([], None)
    else
      match ParseAc(chunks[0])
      case Fail(x) => Run([], Some(x))
      case Ok(row) => Prepend(row, AcRows(chunks[1..]))
  }

  /** The rows added are those of the leading pieces that parse, and a failure is that of the
      first piece that does not. */
  lemma {:induction false} AcRowsSpec(chunks: seq<string>)
    ensures var r := AcRows(chunks);
      && |r.out| <= |chunks|
      && (r.failure.None? ==> |r.out| == |chunks|)
      && (r.failure.Some? ==> |r.out| < |chunks| && ParseAc(chunks[|r.out|]) == Fail(r.failure.value))
      && forall k :: 0 <= k < |r.out| ==> ParseAc(chunks[k]) == Ok(r.out[k])
    decreases |chunks|
  {
    if chunks != [] && ParseAc(chunks[0]).Ok? {
      AcRowsSpec(chunks[1..]);
      var r := AcRows(chunks);
      forall k | 1 <= k < |r.out| ensures ParseAc(chunks[k]) == Ok(r.out[k]) {
        assert chunks[k] == chunks[1..][k - 1];
      }
      if r.failure.Some? {
        assert chunks[|r.out|] == chunks[1..][|r.out| - 1];
      }
    }
  }

  /** The buckets and key_count of a new copying table after hash_table_add of every row, in
      order. */
  function Filled(digest: Digest, rows: seq<AcRow>): (c: HashTable.Contents)
    ensures |c.chains| > 0
  {
    if rows == [] then HashTable.Contents(EmptyChains(128), 0)
    else
      var last := rows[|rows| - 1];
      HashTable.AddTo(digest, Filled(digest, rows[..|rows| - 1]), Element(last.key, last.value))
  }

  /** The keys of some rows. */
  function RowKeys(rows: seq<AcRow>): set<Bytes>
  {
    set r | r in rows :: r.key
  }

  /** After the adds, every node sits in the bucket of its key and the table holds exactly the
      keys of the rows. */
  lemma {:induction false} FilledKeys(digest: Digest, rows: seq<AcRow>)
    ensures Placed(digest, Filled(digest, rows).chains)
    ensures Keys(Flatten(Filled(digest, rows).chains)) == RowKeys(rows)
  {
    if rows == [] {
      FlattenEmpty(128);
    } else {
      var init := rows[..|rows| - 1];
      var last := rows[|rows| - 1];
      FilledKeys(digest, init);
      HashTable.AddToKeys(digest, Filled(digest, init), Element(last.key, last.value));
      assert rows == init + [last];
      assert forall r :: r in rows <==> r in init || r == last;
    }
  }

  /** A lookup in the filled table finds a value exactly for the keys of the rows. */
  lemma FilledFinds(digest: Digest, rows: seq<AcRow>)
    ensures forall k :: Find(Filled(digest, rows).chains, digest, k).Some? <==> k in RowKeys(rows)
  {
    var c := Filled(digest, rows).chains;
    FilledKeys(digest, rows);
    forall k
      ensures Find(c, digest, k).Some? <==> k in RowKeys(rows)
    {
      PlacedCarries(digest, c, k);
      LookupFirstMatch(c[Bucket(digest, k, |c|)], k);
    }
  }

  /** process_ac once the file is open: skip the first line (stopping at the end of the file),
      make a table that copies its keys and values, and add the row of every piece fgets
      returns.  `added` lists the rows handed to hash_table_add, in order. */
  method ProcessAc(st: TextIo.Stream) returns (table: HashTable.Table, added: Run<AcRow>)
    requires st.Valid()
    modifies st
    ensures st.Valid()
    ensures fresh(table) && fresh(table.storeHouse) && table.Valid() && table.mode == HashTable.Copy
    ensures added == AcRows(Chunks(st.text, NextEnd(st.text, old(st.pos))))
    ensures added.failure.None? ==> st.pos == |st.text|
    ensures HashTable.Contents(table.Chains(), table.keyCount) == Filled(table.digest, added.out)
    ensures forall k :: Find(table.Chains(), table.digest, k).Some? <==> k in RowKeys(added.out)
  {
    SkipFirstLine(st);
    table := new HashTable.Table(HashTable.Copy);
    var rows: seq<AcRow> := [];
    ghost var all := Chunks(st.text, st.pos);
    while true
      invariant st.Valid() && fresh(table) && fresh(table.storeHouse)
      invariant table.Valid() && table.mode == HashTable.Copy
      invariant AcRows(all) == Extend(rows, AcRows(Chunks(st.text, st.pos)))
      invariant HashTable.Contents(table.Chains(), table.keyCount) == Filled(table.digest, rows)
      decreases |st.text| - st.pos
    {
      ghost var p := st.pos;
      var buf := Fgets(st, LineSize);
      FilledFinds(table.digest, rows);
      if buf.None? {
        return table, Run(rows, None);
      }
      ghost var rest := Chunks(st.text, st.pos);
      assert Chunks(st.text, p) == [buf.value] + rest;
      assert ([buf.value] + rest)[1..] == rest;
      var row := ParseAcLine(buf.value);
      if row.Fail? {
        return table, Run(rows, Some(row.failure));
      }
      table.Add(row.value.key, row.value.value);
      assert (rows + [row.value])[..|rows|] == rows;
      ExtendPrepend(rows, row.value, AcRows(rest));
      rows := rows + [row.value];
    }
  }
}
