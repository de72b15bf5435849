/*
 * mscan_bed2sga.c: converts the BED lines PWMScan writes into SGA lines.  process_ac reads a
 * table of chromosome numbers and their accessions into a hash table keyed by "chr<nb>";
 * process_bed cuts every BED line into its fields, computes the SGA position and looks the
 * chromosome up by the same kind of key.  A line is a C string: the characters read, its
 * terminating NUL past the end.
 */
module Bed2Sga {
  import opened Options
  import opened CText
  import opened Chains
  import HashTable
  import TextIo

  /** The sizes of the fixed buffers the fields are copied into. */
  const LineSize: nat := 1024
  const ChrNb: nat := 8
  const AcMax: nat := 18
  const PosMax: nat := 16
  const ScoreMax: nat := 12
  const TagMax: nat := 128

  /** The fields of the two input formats. */
  datatype Field = ChromNb | Accession | SeqId | StartPos | EndPos | Tag | Score

  /** Why a line cannot be taken: a field longer than its buffer ends the program (exit(1));
      one exactly as long leaves the buffer without its NUL, which the C code goes on to read
      past (undefined behaviour, which the model reports instead). */
  datatype Failure = TooLong(field: Field) | Unterminated(field: Field)

  datatype Result<T> = Ok(value: T) | Fail(failure: Failure)

  /** The character at i of a C string: past the end is its NUL. */
  function At(s: string, i: nat): char
  {
    if i < |s| then s[i] else '\0'
  }

  /** The characters a copy loop accepts: a word (neither NUL nor white space), the digits of a
      position, or the digits and signs of a score. */
  datatype Kind = Word | Digits | ScoreChars

  predicate InField(k: Kind, c: char)
  {
    match k
    case Word => c != '\0' && !IsSpace(c)
    case Digits => IsDigit(c)
    case ScoreChars => IsDigit(c) || c == '+' || c == '-'
  }

  /** Where the field of kind k that starts at i ends. */
  function FieldEnd(s: string, i: nat, k: Kind): (j: nat)
    requires i <= |s|
    ensures i <= j <= |s| && !InField(k, At(s, j))
    ensures forall m :: i <= m < j ==> InField(k, s[m])
    decreases |s| - i
  {
    if i < |s| && InField(k, s[i]) then FieldEnd(s, i + 1, k) else i
  }

  /** What copying a field of n characters into a buffer of limit characters leads to. */
  function Checked(n: nat, limit: nat, f: Field): Option<Failure>
  {
    if n > limit then Some(TooLong(f)) else if n == limit then Some(Unterminated(f)) else None
  }

  /** One copy loop: the characters of kind k from i on go into a buffer of limit characters,
      and the copy stops the program when one more would not fit. */
  method CopyField(s: string, i: nat, k: Kind, limit: nat, f: Field) returns (r: Result<string>, j: nat)
    requires i <= |s| && limit > 0
    ensures var e := FieldEnd(s, i, k);
      match Checked(e - i, limit, f)
      case Some(x) => r == Fail(x)
      case None => r == Ok(s[i..e]) && j == e
  {
    var buf := new char[limit](_ => '\0');
    var n := 0;
    j := i;
    while j < |s| && InField(k, s[j])
      invariant i <= j <= |s| && n == j - i <= limit
      invariant buf[..n] == s[i..j]
      invariant FieldEnd(s, i, k) == FieldEnd(s, j, k)
    {
      if n >= limit {
        return Fail(TooLong(f)), j;
      }
      buf[n] := s[j];
      n := n + 1;
      j := j + 1;
    }
    if n == limit {
      return Fail(Unterminated(f)), j;
    }
    r := Ok(buf[..n]);
  }

  /** while (isspace(*s)) s++; */
  method SkipBlank(s: string, i: nat) returns (j: nat)
    requires i <= |s|
    ensures j == SkipSpaces(s, i)
  {
    j := i;
    while j < |s| && IsSpace(s[j])
      invariant i <= j <= |s| && SkipSpaces(s, i) == SkipSpaces(s, j)
    {
      j := j + 1;
    }
  }

  /** The fields of a BED line. */
  datatype BedLine = BedLine(seqId: string, start: int, end: int, tag: string, score: int, strand: char)

  /** The field tokenising of process_bed: the chromosome word, the digits of the start and of
      the end (read with atoi), the tag word, the digits and signs of the score (read with atoi)
      and the single character of the strand, with white space skipped before each of the
      fields after the first. */
  function ParseBed(s: string): Result<BedLine>
  {
    var e1 := FieldEnd(s, 0, Word);
    match Checked(e1, AcMax, SeqId)
    case Some(x) => Fail(x)
    case None => ParsePositions(s, s[..e1], SkipSpaces(s, e1))
  }

  /** The start and end fields of a BED line, the first at b2. */
  function ParsePositions(s: string, seqId: string, b2: nat): Result<BedLine>
    requires b2 <= |s|
  {
    var e2 := FieldEnd(s, b2, Digits);
    match Checked(e2 - b2, PosMax, StartPos)
    case Some(x) => Fail(x)
    case None =>
      var b3 := SkipSpaces(s, e2);
      var e3 := FieldEnd(s, b3, Digits);
      match Checked(e3 - b3, PosMax, EndPos)
      case Some(x) => Fail(x)
      case None => ParseTail(s, seqId, Atoi(s[b2..e2], 0), Atoi(s[b3..e3], 0), SkipSpaces(s, e3))
  }

  /** The tag, score and strand fields of a BED line, the first at b4. */
  function ParseTail(s: string, seqId: string, start: int, end: int, b4: nat): Result<BedLine>
    requires b4 <= |s|
  {
    var e4 := FieldEnd(s, b4, Word);
    match Checked(e4 - b4, TagMax, Tag)
    case Some(x) => Fail(x)
    case None =>
      var b5 := SkipSpaces(s, e4);
      var e5 := FieldEnd(s, b5, ScoreChars);
      match Checked(e5 - b5, ScoreMax, Score)
      case Some(x) => Fail(x)
      case None => Ok(BedLine(seqId, start, end, s[b4..e4], Atoi(s[b5..e5], 0), At(s, SkipSpaces(s, e5))))
  }

  /** The field loop of process_bed on one line, character by character. */
  method ParseBedLine(s: string) returns (r: Result<BedLine>)
    ensures r == ParseBed(s)
  {
    var seqId, i := CopyField(s, 0, Word, AcMax, SeqId);
    if seqId.Fail? {
      return Fail(seqId.failure);
    }
    i := SkipBlank(s, i);
    r := ReadPositions(s, seqId.value, i);
  }

  /** The start and end copy loops of process_bed. */
  method ReadPositions(s: string, seqId: string, i: nat) returns (r: Result<BedLine>)
    requires i <= |s|
    ensures r == ParsePositions(s, seqId, i)
  {
    var sPos, i2 := CopyField(s, i, Digits, PosMax, StartPos);
    if sPos.Fail? {
      return Fail(sPos.failure);
    }
    var start := Atoi(sPos.value, 0);
    var j := SkipBlank(s, i2);
    var ePos, i3 := CopyField(s, j, Digits, PosMax, EndPos);
    if ePos.Fail? {
      return Fail(ePos.failure);
    }
    var end := Atoi(ePos.value, 0);
    j := SkipBlank(s, i3);
    r := ReadTail(s, seqId, start, end, j);
  }

  /** The tag, score and strand copy loops of process_bed. */
  method ReadTail(s: string, seqId: string, start: int, end: int, i: nat) returns (r: Result<BedLine>)
    requires i <= |s|
    ensures r == ParseTail(s, seqId, start, end, i)
  {
    var tag, i4 := CopyField(s, i, Word, TagMax, Tag);
    if tag.Fail? {
      return Fail(tag.failure);
    }
    var j := SkipBlank(s, i4);
    var sc, i5 := CopyField(s, j, ScoreChars, ScoreMax, Score);
    if sc.Fail? {
      return Fail(sc.failure);
    }
    var score := Atoi(sc.value, 0);
    j := SkipBlank(s, i5);
    var strand := At(s, j);
    r := Ok(BedLine(seqId, start, end, tag.value, score, strand));
  }

  /** The line process_bed tokenises: the line read, its one trailing '\n' overwritten by NUL. */
  function Strip(l: string): (s: string)
    ensures |l| > 0 && l[|l| - 1] == '\n' ==> s == l[..|l| - 1]
    ensures (|l| == 0 || l[|l| - 1] != '\n') ==> s == l
  {
    if |l| > 0 && l[|l| - 1] == '\n' then l[..|l| - 1] else l
  }

  /** A word field: no NUL and no white space. */
  predicate WordText(w: string)
  {
    forall m :: 0 <= m < |w| ==> InField(Word, w[m])
  }

  /** The BED lines whose fields all fit their buffers, so that process_bed reads them back
      from the text PWMScan's write_result prints. */
  predicate Readable(b: BedLine)
  {
    && WordText(b.seqId) && |b.seqId| < AcMax
    && 0 <= b.start && |Decimal(b.start)| < PosMax
    && 0 <= b.end && |Decimal(b.end)| < PosMax
    && WordText(b.tag) && 0 < |b.tag| < TagMax
    && |Decimal(b.score)| < ScoreMax
    && InField(Word, b.strand)
  }

  /** A field of kind k spelled w, followed by rest, ends where w does. */
  lemma {:induction false} FieldSpan(s: string, i: nat, w: string, rest: string, k: Kind, e: nat)
    requires i <= |s| && s[i..] == w + rest && e == i + |w|
    requires forall m :: 0 <= m < |w| ==> InField(k, w[m])
    requires rest == [] || !InField(k, rest[0])
    ensures e <= |s| && FieldEnd(s, i, k) == e && s[i..e] == w && s[e..] == rest
    decreases |w|
  {
    assert s[i..e] == s[i..][..|w|];
    assert s[e..] == s[i..][|w|..];
    if w == [] {
      if rest != [] {
        assert s[i] == rest[0];
      }
    } else {
      assert s[i] == w[0];
      assert s[i + 1..] == w[1..] + rest;
      FieldSpan(s, i + 1, w[1..], rest, k, e);
    }
  }

  /** A tab is the white space skipped between two fields. */
  lemma TabSkip(s: string, i: nat, rest: string, j: nat)
    requires i <= |s| && s[i..] == "\t" + rest && j == i + 1
    requires rest == [] || !IsSpace(rest[0])
    ensures j <= |s| && SkipSpaces(s, i) == j && s[j..] == rest
  {
    assert s[i] == '\t';
    assert s[j..] == s[i..][1..];
    if rest != [] {
      assert s[j] == rest[0];
    }
  }

  /** printf's %d writes a minus and digits, only digits when the number is not negative. */
  lemma DecimalChars(n: int)
    ensures forall m :: 0 <= m < |Decimal(n)| ==> InField(ScoreChars, Decimal(n)[m])
    ensures n >= 0 ==> forall m :: 0 <= m < |Decimal(n)| ==> InField(Digits, Decimal(n)[m])
  {
    if n < 0 {
      var d := NatString(-n);
      forall m | 0 <= m < |Decimal(n)| ensures InField(ScoreChars, Decimal(n)[m]) {
        if m > 0 {
          assert Decimal(n)[m] == d[m - 1];
        }
      }
    }
  }

  /** A C string without NUL is all of its buffer. */
  lemma CStrWhole(w: string)
    requires WordText(w)
    ensures TextIo.CStr(w) == w
  {
    assert TextIo.StrLen(w) == |w|;
  }

  /** The score and strand fields of a written line read back. */
  lemma ScoreStrandReadBack(s: string, b5: nat, score: int, strand: char)
    requires |Decimal(score)| < ScoreMax && InField(Word, strand) && b5 <= |s|
    requires s[b5..] == Decimal(score) + ("\t" + [strand])
    ensures var e5 := FieldEnd(s, b5, ScoreChars);
      && Checked(e5 - b5, ScoreMax, Score).None?
      && Atoi(s[b5..e5], 0) == score
      && At(s, SkipSpaces(s, e5)) == strand
  {
    var d := Decimal(score);
    DecimalChars(score);
    var e5 := b5 + |d|;
    FieldSpan(s, b5, d, "\t" + [strand], ScoreChars, e5);
    var b6 := e5 + 1;
    TabSkip(s, e5, [strand], b6);
    assert s[b6] == strand;
    AtoiDecimal(d, 0, score);
  }

  /** The last three fields of a written line read back. */
  lemma TailReadBack(s: string, b4: nat, b: BedLine)
    requires Readable(b) && b4 <= |s|
    requires s[b4..] == b.tag + ("\t" + (Decimal(b.score) + ("\t" + [b.strand])))
    ensures ParseTail(s, b.seqId, b.start, b.end, b4) == Ok(b)
  {
    var rest := Decimal(b.score) + ("\t" + [b.strand]);
    var e4 := b4 + |b.tag|;
    FieldSpan(s, b4, b.tag, "\t" + rest, Word, e4);
    var b5 := e4 + 1;
    TabSkip(s, e4, rest, b5);
    ScoreStrandReadBack(s, b5, b.score, b.strand);
  }

  /** The start and end fields of a written line read back. */
  lemma {:induction false} PositionsReadBack(s: string, b2: nat, b: BedLine)
    requires Readable(b) && b2 <= |s|
    requires s[b2..] == Decimal(b.start) + ("\t" + (Decimal(b.end) + ("\t" + (b.tag
      + ("\t" + (Decimal(b.score) + ("\t" + [b.strand])))))))
    ensures ParsePositions(s, b.seqId, b2) == Ok(b)
  {
    var d1 := Decimal(b.start);
    var d2 := Decimal(b.end);
    var tail := b.tag + ("\t" + (Decimal(b.score) + ("\t" + [b.strand])));
    DecimalChars(b.start);
    DecimalChars(b.end);
    var e2 := b2 + |d1|;
    FieldSpan(s, b2, d1, "\t" + (d2 + ("\t" + tail)), Digits, e2);
    var b3 := e2 + 1;
    TabSkip(s, e2, d2 + ("\t" + tail), b3);
    var e3 := b3 + |d2|;
    FieldSpan(s, b3, d2, "\t" + tail, Digits, e3);
    var b4 := e3 + 1;
    TabSkip(s, e3, tail, b4);
    AtoiDecimal(d1, 0, b.start);
    AtoiDecimal(d2, 0, b.end);
    TailReadBack(s, b4, b);
  }

  /** What write_result prints for a result, process_bed reads back field for field: the BED
      line PWMScan writes is the line this converter expects. */
  lemma WrittenLineReadBack(b: BedLine)
    requires Readable(b)
    ensures ParseBed(Strip(TextIo.ResultLine(b.seqId, b.start, b.end, b.tag, b.score, b.strand))) == Ok(b)
  {
    CStrWhole(b.seqId);
    CStrWhole(b.tag);
    var s := TextIo.ResultFields(b.seqId, b.start, b.end, b.tag, b.score, b.strand);
    assert Strip(s + "\n") == s by {
      assert (s + "\n")[..|s|] == s;
    }
    var rest := Decimal(b.start) + ("\t" + (Decimal(b.end) + ("\t" + (b.tag
      + ("\t" + (Decimal(b.score) + ("\t" + [b.strand])))))));
    assert s[0..] == b.seqId + ("\t" + rest);
    var e1 := |b.seqId|;
    FieldSpan(s, 0, b.seqId, "\t" + rest, Word, e1);
    TabSkip(s, e1, rest, e1 + 1);
    PositionsReadBack(s, e1 + 1, b);
  }

  /** A character of the file as the byte the C code stores (the text holds bytes only). */
  function Byte(c: char): bv8
  {
    (c as int % 256) as bv8
  }

  /** A C string as the bytes a key or value of the table is made of: its characters and the
      NUL, strlen + 1 of them. */
  function CKey(s: string): (b: Bytes)
    ensures |b| == |s| + 1 && b[|s|] == 0
  {
    seq(|s|, k requires 0 <= k < |s| => Byte(s[k])) + [0]
  }

  /** The SGA position of a BED region: one past the start on the '+' strand (BED starts count
      from 0, SGA from 1), the end on any other strand. */
  function SgaPosition(b: BedLine): int
  {
    if b.strand == '+' then b.start + 1 else b.end
  }

  /** The key process_bed looks the chromosome up with. */
  function LookupKey(b: BedLine): Bytes
  {
    CKey(b.seqId)
  }

  /** A row of the accession table: the key "chr" + number and the accession, both with NUL. */
  datatype AcRow = AcRow(key: Bytes, value: Bytes)

  /** The field tokenising of process_ac: the chromosome number word, then after white space the
      accession word. */
  function ParseAc(s: string): Result<AcRow>
  {
    var e1 := FieldEnd(s, 0, Word);
    match Checked(e1, ChrNb, ChromNb)
    case Some(x) => Fail(x)
    case None =>
      var b2 := SkipSpaces(s, e1);
      var e2 := FieldEnd(s, b2, Word);
      match Checked(e2 - b2, AcMax, Accession)
      case Some(x) => Fail(x)
      case None => Ok(AcRow(CKey("chr" + s[..e1]), CKey(s[b2..e2])))
  }

  /** A line "number<TAB>accession" of the accession file gives the row whose key is the one a
      BED line of chromosome "chr" + number is looked up with, and whose value is the
      accession as a C string. */
  lemma AcLineReadBack(nb: string, ac: string, b: BedLine)
    requires WordText(nb) && |nb| < ChrNb
    requires WordText(ac) && 0 < |ac| < AcMax
    requires b.seqId == "chr" + nb
    ensures ParseAc(nb + ("\t" + (ac + "\n"))) == Ok(AcRow(LookupKey(b), CKey(ac)))
  {
    var s := nb + ("\t" + (ac + "\n"));
    var e1 := |nb|;
    assert s[0..] == nb + ("\t" + (ac + "\n"));
    FieldSpan(s, 0, nb, "\t" + (ac + "\n"), Word, e1);
    TabSkip(s, e1, ac + "\n", e1 + 1);
    FieldSpan(s, e1 + 1, ac, "\n", Word, e1 + 1 + |ac|);
  }

  /** The field loop of process_ac on one line; the key is "chr" strcat'ed with the number. */
  method ParseAcLine(s: string) returns (r: Result<AcRow>)
    ensures r == ParseAc(s)
  {
    var nb, i := CopyField(s, 0, Word, ChrNb, ChromNb);
    if nb.Fail? {
      return Fail(nb.failure);
    }
    i := SkipBlank(s, i);
    var ac, i2 := CopyField(s, i, Word, AcMax, Accession);
    if ac.Fail? {
      return Fail(ac.failure);
    }
    var chrom := "chr" + nb.value;
    r := Ok(AcRow(CKey(chrom), CKey(ac.value)));
  }
}
