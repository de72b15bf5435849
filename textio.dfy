/*
 * io.c: the readers of the scanner's two input formats (a matrix file of four integers per
 * line, a FASTA file of nucleotide sequences) and the writer of one scan result.  A FILE*
 * open for reading is a fixed text with a read position that fgetc advances; fprintf's
 * output is returned as a string.
 */
module TextIo {
  import opened Options
  import CharHash
  import opened CText
  import PwmMatrix

  /** A stream read with fgetc: the whole text and the index of the next character. */
  class Stream {
    const text: string
    var pos: nat

    predicate Valid()
      reads this
    {
      pos <= |text|
    }

    constructor (t: string)
      ensures text == t && pos == 0 && Valid()
    {
      text := t;
      pos := 0;
    }

    /** fgetc: the next character, or EOF (None) at the end of the text. */
    method Getc() returns (c: Option<char>)
      requires Valid()
      modifies this
      ensures Valid()
      ensures old(pos) < |text| ==> c == Some(text[old(pos)]) && pos == old(pos) + 1
      ensures old(pos) == |text| ==> c == None && pos == old(pos)
    {
      if pos < |text| {
        c := Some(text[pos]);
        pos := pos + 1;
      } else {
        c := None;
      }
    }
  }

  /** realloc to twice the size: the first n elements are kept, the new ones are unset
      (fill stands for whatever they hold). */
  method Grow<T>(a: array<T>, n: nat, fill: T) returns (b: array<T>)
    requires n <= a.Length
    ensures fresh(b) && b.Length == 2 * a.Length && b[..n] == a[..n]
  {
    b := new T[2 * a.Length](_ => fill);
    var k := 0;
    while k < n
      invariant 0 <= k <= n && b.Length == 2 * a.Length
      invariant b[..k] == a[..k]
    {
      b[k] := a[k];
      k := k + 1;
    }
  }

  // ---------------------------------------------------------------------------
  // readline

  /** The index of the first '\n' at or after p, or the end of the text when there is none. */
  function LineEnd(text: string, p: nat): (e: nat)
    requires p <= |text|
    ensures p <= e <= |text|
    ensures forall k :: p <= k < e ==> text[k] != '\n'
    ensures e < |text| ==> text[e] == '\n'
    decreases |text| - p
  {
    if p == |text| || text[p] == '\n' then p else LineEnd(text, p + 1)
  }

  /** Stores c after the i characters of a buffer of size places, first doubling it when only
      two places are left (the realloc of readline). */
  method PutChar(buf: array<char>, size: nat, i: nat, c: char) returns (buf': array<char>, size': nat)
    requires buf.Length == size && i <= size - 2
    modifies buf
    ensures buf' == buf || fresh(buf')
    ensures buf'.Length == size' && i + 1 <= size' - 1
    ensures size' == if i == size - 2 then 2 * size else size
    ensures buf'[..i + 1] == old(buf[..i]) + [c]
  {
    buf', size' := buf, size;
    if i == size - 2 {
      buf' := Grow(buf, i, '\0');
      size' := size * 2;
    }
    buf'[i] := c;
    assert buf'[..i + 1] == buf'[..i] + [c];
  }

  lemma SliceSnoc(text: string, p: nat, q: nat)
    requires p < q <= |text|
    ensures text[p..q] == text[p..q - 1] + [text[q - 1]]
  {
  }

  /** readline: collects characters in a buffer of 100 that doubles whenever only two places
      (for the '\n' and the terminating NUL) are left.  It returns the characters up to and
      including the next '\n' with status 0; at the end of the text it returns NULL (None) with
      status 1, dropping a last line that has no '\n'.  The NUL written after the line ends the
      C string: the returned value is the buffer up to it. */
  method ReadLine(st: Stream) returns (line: Option<string>, status: int)
    requires st.Valid()
    modifies st
    ensures st.Valid()
    ensures var e := LineEnd(st.text, old(st.pos));
      if e < |st.text| then line == Some(st.text[old(st.pos)..e + 1]) && status == 0 && st.pos == e + 1
      else line == None && status == 1 && st.pos == |st.text|
  {
    ghost var p0 := st.pos;
    ghost var e := LineEnd(st.text, p0);
    var size := 100;
    var buf := new char[size](_ => '\0');
    var i := 0;
    while true
      invariant st.Valid() && p0 <= st.pos <= e
      invariant fresh(buf) && buf.Length == size && i == st.pos - p0 <= size - 2
      invariant buf[..i] == st.text[p0..st.pos]
      decreases |st.text| - st.pos
    {
      var c := st.Getc();
      if c == None {
        return None, 1;
      }
      buf, size := PutChar(buf, size, i, c.value);
      i := i + 1;
      SliceSnoc(st.text, p0, st.pos);
      if c.value == '\n' {
        break;
      }
    }
    buf[i] := '\0';
    line, status := Some(buf[..i]), 0;
  }

  /** The complete lines of the text from p, each with its '\n', as repeated readline calls
      return them until EOF. */
  function Lines(text: string, p: nat): seq<string>
    requires p <= |text|
    decreases |text| - p
  {
    var e := LineEnd(text, p);
    if e < |text| then [text[p..e + 1]] + Lines(text, e + 1) else []
  }

  /** Where the last, unterminated line starts: readline drops the text from here on. */
  function PartialStart(text: string, p: nat): (q: nat)
    requires p <= |text|
    ensures p <= q <= |text|
    decreases |text| - p
  {
    var e := LineEnd(text, p);
    if e < |text| then PartialStart(text, e + 1) else p
  }

  function Concat(ls: seq<string>): string
  {
    if ls == [] then [] else ls[0] + Concat(ls[1..])
  }

  /** Each line readline returns ends with its only '\n'. */
  lemma {:induction false} LinesAreLines(text: string, p: nat)
    requires p <= |text|
    ensures forall k :: 0 <= k < |Lines(text, p)| ==>
      var l := Lines(text, p)[k];
      |l| > 0 && l[|l| - 1] == '\n' && forall j :: 0 <= j < |l| - 1 ==> l[j] != '\n'
    decreases |text| - p
  {
    var e := LineEnd(text, p);
    if e < |text| {
      LinesAreLines(text, e + 1);
      var l := text[p..e + 1];
      assert forall j :: 0 <= j < |l| - 1 ==> l[j] == text[p + j];
    }
  }

  /** Reading lines until EOF loses nothing but the last, unterminated line: the lines put back
      together give the text up to where that line starts, and no '\n' follows. */
  lemma {:induction false} LinesRebuildText(text: string, p: nat)
    requires p <= |text|
    ensures Concat(Lines(text, p)) == text[p..PartialStart(text, p)]
    ensures forall k :: PartialStart(text, p) <= k < |text| ==> text[k] != '\n'
    decreases |text| - p
  {
    PartialHasNoNewline(text, p);
    var e := LineEnd(text, p);
    if e < |text| {
      LinesRebuildText(text, e + 1);
      var q := PartialStart(text, p);
      assert q == PartialStart(text, e + 1);
      var ls := Lines(text, p);
      var rest := Lines(text, e + 1);
      assert Concat(ls) == text[p..e + 1] + Concat(rest) by {
        assert ls == [text[p..e + 1]] + rest;
        assert ls[0] == text[p..e + 1] && ls[1..] == rest;
      }
      assert text[p..q] == text[p..e + 1] + text[e + 1..q];
    }
  }

  lemma {:induction false} PartialHasNoNewline(text: string, p: nat)
    requires p <= |text|
    ensures forall k :: PartialStart(text, p) <= k < |text| ==> text[k] != '\n'
    decreases |text| - p
  {
    var e := LineEnd(text, p);
    if e < |text| {
      PartialHasNoNewline(text, e + 1);
    }
  }

  // ---------------------------------------------------------------------------
  // read_matrix_file

  /** strlen: the index of the first NUL from k on, or the length of the buffer. */
  function StrLenFrom(s: string, k: nat): (n: nat)
    requires k <= |s|
    ensures k <= n <= |s| && (n < |s| ==> s[n] == '\0')
    ensures forall j :: k <= j < n ==> s[j] != '\0'
    decreases |s| - k
  {
    if k == |s| || s[k] == '\0' then k else StrLenFrom(s, k + 1)
  }

  function StrLen(s: string): nat
  {
    StrLenFrom(s, 0)
  }

  /** The C string a buffer holds: its characters before the first NUL. */
  function CStr(s: string): string
  {
    s[..StrLen(s)]
  }

  /** Whether a '>' occurs at or after j and before n - 1. */
  predicate MarkFrom(line: string, j: nat, n: nat)
    requires n <= |line|
    decreases n - j
  {
    j + 1 < n && (line[j] == '>' || MarkFrom(line, j + 1, n))
  }

  /** A header line has a '>' somewhere before its last character (its '\n'). */
  predicate IsHeader(line: string)
  {
    MarkFrom(line, 0, StrLen(line))
  }

  lemma {:induction false} MarkFromSpec(line: string, j: nat, n: nat)
    requires n <= |line|
    ensures MarkFrom(line, j, n) <==> exists k :: j <= k && k + 1 < n && line[k] == '>'
    decreases n - j
  {
    if j + 1 < n {
      MarkFromSpec(line, j + 1, n);
      if line[j] != '>' {
        assert forall k :: j <= k && k + 1 < n && line[k] == '>' ==> j + 1 <= k;
      }
    }
  }

  /** A line is a header exactly when it holds a '>' before its last character. */
  lemma IsHeaderSpec(line: string)
    ensures IsHeader(line) <==> exists j :: 0 <= j && j + 1 < StrLen(line) && line[j] == '>'
  {
    MarkFromSpec(line, 0, StrLen(line));
  }

  /** The header test of read_matrix_file, a search for '>' that stops at the first one. */
  method FindHeaderMark(line: string) returns (found: bool)
    requires StrLen(line) > 0
    ensures found == IsHeader(line)
  {
    var n := StrLen(line);
    var j := 0;
    while j < n - 1
      invariant 0 <= j <= n - 1
      invariant MarkFrom(line, 0, n) == MarkFrom(line, j, n)
    {
      if line[j] == '>' {
        return true;
      }
      j := j + 1;
    }
    return false;
  }

  /** A matrix column: calloc'd 26 rows, with the four values read into the rows of A, C, G
      and T. */
  function ColumnOf(vs: seq<int>): (col: seq<int>)
    requires |vs| == 4
    ensures |col| == CharHash.NbLetter
    ensures col[CharHash.Hash('A')] == vs[0] && col[CharHash.Hash('C')] == vs[1]
    ensures col[CharHash.Hash('G')] == vs[2] && col[CharHash.Hash('T')] == vs[3]
    ensures forall r :: 0 <= r < |col| && r !in PwmMatrix.IndexFrom ==> col[r] == 0
  {
    seq(CharHash.NbLetter, r =>
      if r == 0 then vs[0] else if r == 2 then vs[1] else if r == 6 then vs[2]
      else if r == 19 then vs[3] else 0)
  }

  /** sscanf(line, "%d %d %d %d %d", ...) must store exactly four values.  The conversion is
      a parameter: sscanf maps the C string to the values it stores, in order (CText.ScanInts
      with five conversions is the model of %d it stands for). */
  function ParseLine(sscanf: string -> seq<int>, line: string): Option<seq<int>>
  {
    var vs := sscanf(CStr(line));
    if |vs| == 4 then Some(ColumnOf(vs)) else None
  }

  /** The lines that hold columns: all of them, but the first when it is a header. */
  function DataLines(lines: seq<string>): seq<string>
  {
    if |lines| > 0 && IsHeader(lines[0]) then lines[1..] else lines
  }

  /** The columns of the data lines, or None when one of them does not hold four numbers. */
  function ParseColumns(sscanf: string -> seq<int>, lines: seq<string>): (r: Option<seq<seq<int>>>)
    decreases |lines|
  {
    if lines == [] then Some([])
    else
      match ParseColumns(sscanf, lines[..|lines| - 1])
      case None => None
      case Some(cols) =>
        match ParseLine(sscanf, lines[|lines| - 1])
        case None => None
        case Some(col) => Some(cols + [col])
  }

  /** The columns parse if and only if every line parses, and then column k comes from line
      k. */
  lemma {:induction false} ParseColumnsSpec(sscanf: string -> seq<int>, lines: seq<string>)
    ensures ParseColumns(sscanf, lines).Some? <==>
      forall k :: 0 <= k < |lines| ==> ParseLine(sscanf, lines[k]).Some?
    ensures ParseColumns(sscanf, lines).Some? ==>
      |ParseColumns(sscanf, lines).value| == |lines| &&
      forall k :: 0 <= k < |lines| ==> ParseColumns(sscanf, lines).value[k] == ParseLine(sscanf, lines[k]).value
    decreases |lines|
  {
    if lines != [] {
      var init := lines[..|lines| - 1];
      ParseColumnsSpec(sscanf, init);
      assert forall k :: 0 <= k < |init| ==> init[k] == lines[k];
    }
  }

  /** A matrix read from a file is nucleotide-only: rows other than A, C, G and T are 0, so
      reversing it twice gives it back. */
  lemma ParsedNucleotideOnly(sscanf: string -> seq<int>, lines: seq<string>)
    requires ParseColumns(sscanf, lines).Some?
    ensures var cols := ParseColumns(sscanf, lines).value;
      && PwmMatrix.Shaped(cols, CharHash.NbLetter)
      && forall c, r :: 0 <= c < |cols| && 0 <= r < CharHash.NbLetter && r !in PwmMatrix.IndexFrom ==>
           cols[c][r] == 0
  {
    ParseColumnsSpec(sscanf, lines);
  }

  /** The matrix storage: column c of the array2 is cols[c]. */
  method ToArray2(cols: seq<seq<int>>, nrow: nat) returns (a: array2<int>)
    requires PwmMatrix.Shaped(cols, nrow)
    ensures fresh(a) && a.Length0 == |cols| && a.Length1 == nrow
    ensures PwmMatrix.Columns(a) == cols
  {
    a := new int[|cols|, nrow];
    var c := 0;
    while c < |cols|
      invariant 0 <= c <= |cols|
      invariant forall c', r :: 0 <= c' < c && 0 <= r < nrow ==> a[c', r] == cols[c'][r]
    {
      var r := 0;
      while r < nrow
        invariant 0 <= r <= nrow
        invariant forall c', r' :: 0 <= c' < c && 0 <= r' < nrow ==> a[c', r'] == cols[c'][r']
        invariant forall r' :: 0 <= r' < r ==> a[c, r'] == cols[c][r']
      {
        a[c, r] := cols[c][r];
        r := r + 1;
      }
      c := c + 1;
    }
    forall c | 0 <= c < |cols|
      ensures PwmMatrix.Columns(a)[c] == cols[c]
    {
      assert forall r :: 0 <= r < nrow ==> PwmMatrix.Column(a, c)[r] == cols[c][r];
    }
  }

  /** The lines still to be read, once the first has been. */
  lemma LinesStep(text: string, p: nat)
    requires p <= |text| && LineEnd(text, p) < |text|
    ensures Lines(text, p) == [text[p..LineEnd(text, p) + 1]] + Lines(text, LineEnd(text, p) + 1)
  {
  }

  /** Reading one more line moves it from the lines still to come to the lines read. */
  lemma LinesAdvance(text: string, p: nat, q: nat, l: string, read: seq<string>, all: seq<string>)
    requires p <= |text| && LineEnd(text, p) < |text|
    requires q == LineEnd(text, p) + 1 && l == text[p..q]
    requires all == read + Lines(text, p)
    ensures all == (read + [l]) + Lines(text, q)
  {
    LinesStep(text, p);
  }

  /** A line that parses extends the columns by its own. */
  lemma ParseColumnsSnoc(sscanf: string -> seq<int>, data: seq<string>, l: string)
    requires ParseColumns(sscanf, data).Some? && ParseLine(sscanf, l).Some?
    ensures ParseColumns(sscanf, data + [l]) ==
      Some(ParseColumns(sscanf, data).value + [ParseLine(sscanf, l).value])
  {
    assert (data + [l])[..|data|] == data;
  }

  /** A line that does not parse spoils every sequence of lines it is in. */
  lemma ParseColumnsFails(sscanf: string -> seq<int>, data: seq<string>, l: string, rest: seq<string>)
    requires ParseLine(sscanf, l).None?
    ensures ParseColumns(sscanf, data + [l] + rest).None?
  {
    ParseColumnsSpec(sscanf, data + [l] + rest);
    assert (data + [l] + rest)[|data|] == l;
  }

  /** A line that is neither the header nor four numbers makes the whole file a format error. */
  lemma FormatError(sscanf: string -> seq<int>, header: seq<string>, data: seq<string>, l: string, rest: seq<string>)
    requires |header| <= 1
    requires |header| == 1 ==> IsHeader(header[0])
    requires |header| == 0 && |data| > 0 ==> !IsHeader(data[0])
    requires |header| == 0 && |data| == 0 ==> !IsHeader(l)
    requires ParseLine(sscanf, l).None?
    ensures ParseColumns(sscanf, DataLines(header + data + [l] + rest)).None?
  {
    ParseColumnsFails(sscanf, data, l, rest);
    assert header + data + [l] + rest == header + (data + [l] + rest);
    DataLinesSplit(header, data + [l] + rest);
  }

  /** The data lines of a text whose first line is header (when there is one) and whose other
      lines are data. */
  lemma DataLinesSplit(header: seq<string>, data: seq<string>)
    requires |header| <= 1
    requires |header| == 1 ==> IsHeader(header[0])
    requires |header| == 0 && |data| > 0 ==> !IsHeader(data[0])
    ensures DataLines(header + data) == data
  {
    if |header| == 1 {
      assert (header + data)[1..] == data;
    }
  }

  /** Stores the column of the slot-th data line, where ncol lines (header included) have been
      read; the column index is doubled first when only one place is left in it. */
  method StoreColumn(index: array<seq<int>>, ncolIndex: nat, ncol: nat, slot: nat, col: seq<int>)
    returns (index': array<seq<int>>, ncolIndex': nat)
    requires ncolIndex == index.Length && slot <= ncol < ncolIndex
    modifies index
    ensures index' == index || fresh(index')
    ensures ncolIndex' == index'.Length && ncol + 1 < ncolIndex' && ncolIndex <= ncolIndex'
    ensures index'[..slot + 1] == old(index[..slot]) + [col]
  {
    index', ncolIndex' := index, ncolIndex;
    if ncol == ncolIndex - 1 {
      index' := Grow(index, slot, []);
      ncolIndex' := ncolIndex * 2;
    }
    index'[slot] := col;
    assert index'[..slot + 1] == index'[..slot] + [col];
  }

  /** One data line of read_matrix_file: its column is stored after the data lines before it,
      or, when sscanf does not give four numbers, ok is false and nothing is stored. */
  method AddDataLine(sscanf: string -> seq<int>, l: string, index: array<seq<int>>, ncolIndex: nat, ncol: nat,
                     slot: nat, ghost data: seq<string>)
    returns (ok: bool, index': array<seq<int>>, ncolIndex': nat)
    requires ncolIndex == index.Length && slot <= ncol < ncolIndex && slot == |data|
    requires ParseColumns(sscanf, data) == Some(index[..slot])
    modifies index
    ensures ok <==> ParseLine(sscanf, l).Some?
    ensures index' == index || fresh(index')
    ensures ncolIndex' == index'.Length && ncolIndex <= ncolIndex'
    ensures ok ==> ncol + 1 < ncolIndex' && ParseColumns(sscanf, data + [l]) == Some(index'[..slot + 1])
  {
    var vs := sscanf(CStr(l));
    if |vs| != 4 {
      return false, index, ncolIndex;
    }
    ParseColumnsSnoc(sscanf, data, l);
    index', ncolIndex' := StoreColumn(index, ncolIndex, ncol, slot, ColumnOf(vs));
    ok := true;
  }

  lemma SnocAssoc<T>(a: seq<T>, b: seq<T>, x: T)
    ensures (a + b) + [x] == a + (b + [x])
  {
  }

  /** The body of read_matrix_file's loop for line l once ncol lines have been read: the first
      line is the header when it has a '>' before its last character; any other line is a data
      line whose column is stored, or ok is false (the caller returns -2) when sscanf does not
      give four numbers.  header' and data' are the lines read so far, l included. */
  method TakeLine(sscanf: string -> seq<int>, l: string, index: array<seq<int>>, ncolIndex: nat, ncol: nat,
                  flagHeader: nat, ghost header: seq<string>, ghost data: seq<string>, ghost rest: seq<string>)
    returns (ok: bool, index': array<seq<int>>, ncolIndex': nat, flagHeader': nat,
             ghost header': seq<string>, ghost data': seq<string>)
    requires ncol == |header| + |data| && flagHeader == |header| <= 1
    requires |header| == 1 ==> IsHeader(header[0])
    requires |header| == 0 && |data| > 0 ==> !IsHeader(data[0])
    requires ncol == 0 ==> StrLen(l) > 0 && ncolIndex > 1
    requires ncol < ncolIndex == index.Length
    requires ParseColumns(sscanf, data) == Some(index[..|data|])
    modifies index
    ensures index' == index || fresh(index')
    ensures !ok ==> ParseColumns(sscanf, DataLines(header + data + [l] + rest)).None?
    ensures ok ==>
      && header' + data' == (header + data) + [l]
      && ncol + 1 == |header'| + |data'| && flagHeader' == |header'| <= 1
      && (|header'| == 1 ==> IsHeader(header'[0]))
      && (|header'| == 0 && |data'| > 0 ==> !IsHeader(data'[0]))
      && ncol + 1 < ncolIndex' == index'.Length && ncolIndex <= ncolIndex'
      && ParseColumns(sscanf, data') == Some(index'[..|data'|])
  {
    index', ncolIndex', flagHeader', header', data' := index, ncolIndex, flagHeader, header, data;
    if ncol == 0 {
      var found := FindHeaderMark(l);
      if found {
        assert header == [] && data == [];
        return true, index, ncolIndex, 1, [l], data;
      }
    }
    ok, index', ncolIndex' := AddDataLine(sscanf, l, index, ncolIndex, ncol, ncol - flagHeader, data);
    if !ok {
      FormatError(sscanf, header, data, l, rest);
      return;
    }
    SnocAssoc(header, data, l);
    data' := data + [l];
  }

  /** The loop of read_matrix_file: reads lines until EOF.  The first line is skipped when it
      is a header; every other line must give exactly four numbers to sscanf, or the result is
      -2.  On success (0) the first n places of index hold one 26-row column per data line.
      The first line must not start with a NUL, for which the C header test would run past the
      buffer. */
  method ReadColumns(st: Stream, sscanf: string -> seq<int>) returns (status: int, index: array<seq<int>>, n: nat)
    requires st.Valid()
    requires LineEnd(st.text, st.pos) < |st.text| ==> st.text[st.pos] != '\0'
    modifies st
    ensures st.Valid() && fresh(index)
    ensures var r := ParseColumns(sscanf, DataLines(Lines(st.text, old(st.pos))));
      && (status == 0 || status == -2)
      && (status == 0 <==> r.Some?)
      && (status == 0 ==> n <= index.Length && index[..n] == r.value && st.pos == |st.text|)
  {
    ghost var all := Lines(st.text, st.pos);
    ghost var header: seq<string> := [];
    ghost var data: seq<string> := [];
    ghost var read: seq<string> := [];
    var ncol := 0;
    var flagHeader := 0;
    var ncolIndex := 30;
    index := new seq<int>[ncolIndex](_ => []);
    while true
      invariant st.Valid()
      invariant all == read + Lines(st.text, st.pos) && read == header + data
      invariant ncol == |header| + |data| && flagHeader == |header| <= 1
      invariant |header| == 1 ==> IsHeader(header[0])
      invariant |header| == 0 && |data| > 0 ==> !IsHeader(data[0])
      invariant ncol == 0 ==> LineEnd(st.text, st.pos) < |st.text| ==> st.text[st.pos] != '\0'
      invariant fresh(index) && ncol < ncolIndex == index.Length
      invariant ncol == 0 ==> ncolIndex == 30
      invariant ParseColumns(sscanf, data) == Some(index[..|data|])
      decreases |st.text| - st.pos
    {
      ghost var p := st.pos;
      var line, lineStatus := ReadLine(st);
      if lineStatus == 1 {
        assert Lines(st.text, p) == [];
        ncol := ncol - 1;
        break;
      }
      var l := line.value;
      LinesAdvance(st.text, p, st.pos, l, read, all);
      ghost var rest := Lines(st.text, st.pos);
      read := read + [l];
      if ncol == 0 {
        assert StrLen(l) > 0 by {
          assert l[0] == st.text[p];
        }
      }
      var ok;
      ok, index, ncolIndex, flagHeader, header, data :=
        TakeLine(sscanf, l, index, ncolIndex, ncol, flagHeader, header, data, rest);
      if !ok {
        return -2, index, 0;
      }
      ncol := ncol + 1;
    }
    assert all == header + data;
    DataLinesSplit(header, data);
    n := ncol - flagHeader + 1;
    assert n == |data|;
    assert ParseColumns(sscanf, DataLines(all)) == Some(index[..n]);
    status := 0;
  }

  /** read_matrix_file: on success (0) pwm holds one 26-row column per data line of the file,
      copied from the column index into a two-dimensional array; on a format error (-2) pwm is
      left as it was. */
  method ReadMatrixFile(st: Stream, pwm: PwmMatrix.Matrix, sscanf: string -> seq<int>) returns (status: int)
    requires st.Valid()
    requires LineEnd(st.text, st.pos) < |st.text| ==> st.text[st.pos] != '\0'
    modifies st, pwm
    ensures st.Valid()
    ensures var r := ParseColumns(sscanf, DataLines(Lines(st.text, old(st.pos))));
      && (status == 0 || status == -2)
      && (status == 0 <==> r.Some?)
      && (status == 0 ==>
            && pwm.Valid() && fresh(pwm.index)
            && pwm.nrow == CharHash.NbLetter && pwm.ncol == |r.value|
            && PwmMatrix.Columns(pwm.index) == r.value
            && st.pos == |st.text|)
      && (status == -2 ==> pwm.nrow == old(pwm.nrow) && pwm.ncol == old(pwm.ncol) && pwm.index == old(pwm.index))
  {
    ghost var lines := DataLines(Lines(st.text, st.pos));
    var index, n;
    status, index, n := ReadColumns(st, sscanf);
    if status == 0 {
      ParsedNucleotideOnly(sscanf, lines);
      pwm.ncol := n;
      pwm.nrow := CharHash.NbLetter;
      pwm.index := ToArray2(index[..n], CharHash.NbLetter);
    }
  }

  /** struct sequence: the header line, the hash codes of the bases (seq) and their number. */
  class Sequence {
    var header: Option<string>
    var codes: array?<int>
    var length: int

    constructor ()
      ensures header == None && codes == null && length == 0
    {
      header := None;
      codes := null;
      length := 0;
    }
  }

  /** The hash codes of the five bases a sequence is stored with. */
  predicate IsBaseCode(h: int)
  {
    h == 0 || h == 2 || h == 6 || h == 13 || h == 19
  }

  /** The base read_fasta_entry keeps for a character of the file: lower case is raised and
      anything other than A, C, G and T becomes N. */
  function Normalize(c: char): (b: char)
    ensures b == 'A' || b == 'C' || b == 'G' || b == 'T' || b == 'N'
    ensures b != 'N' ==> b == c || (IsLower(c) && b == ToUpper(c))
  {
    var u := if IsLower(c) then ToUpper(c) else c;
    if u == 'A' || u == 'C' || u == 'G' || u == 'T' then u else 'N'
  }

  /** CHAR_HASH of the normalised character. */
  function Code(c: char): (h: int)
    ensures IsBaseCode(h)
  {
    CharHash.NucleotideRows();
    CharHash.Hash(Normalize(c))
  }

  /** Decoding a stored code with GET_CHAR gives back the normalised character. */
  lemma CodeRoundTrip(c: char)
    ensures 0 <= Code(c) < CharHash.NbLetter && CharHash.GetChar(Code(c)) == Normalize(c)
  {
    CharHash.RoundTrip(Normalize(c), 0);
  }

  /** What the sequence loop reads from p on: the codes, where it stops, and whether it
      stopped at a '>' (the '>' is consumed). */
  datatype SeqScan = SeqScan(codes: seq<int>, next: nat, atHeader: bool)

  /** The sequence loop of read_fasta_entry on the text from p: '\n' and ' ' are skipped,
      '>' or the end of the text stops it. */
  function ScanSeq(text: string, p: nat): (r: SeqScan)
    requires p <= |text|
    ensures p <= r.next <= |text|
    ensures forall k :: 0 <= k < |r.codes| ==> IsBaseCode(r.codes[k])
    decreases |text| - p
  {
    if p == |text| then SeqScan([], p, false)
    else if text[p] == '>' then SeqScan([], p + 1, true)
    else
      var r := ScanSeq(text, p + 1);
      if text[p] == '\n' || text[p] == ' ' then r
      else SeqScan([Code(text[p])] + r.codes, r.next, r.atHeader)
  }

  /** The bases kept from a piece of text: every character but '\n' and ' ', normalised. */
  function Kept(s: string): string
  {
    if s == [] then []
    else if s[0] == '\n' || s[0] == ' ' then Kept(s[1..])
    else [Normalize(s[0])] + Kept(s[1..])
  }

  /** GET_CHAR of every code. */
  function Decode(codes: seq<int>): (s: string)
    requires forall k :: 0 <= k < |codes| ==> 0 <= codes[k] < CharHash.NbLetter
    ensures |s| == |codes|
  {
    seq(|codes|, k requires 0 <= k < |codes| => CharHash.GetChar(codes[k]))
  }

  /** Where the sequence loop stopped: at the '>' it consumed, or at the end of the text. */
  function Stop(r: SeqScan): int
  {
    if r.atHeader then r.next - 1 else r.next
  }

  /** The sequence loop stops at the first '>' after p, or at the end of the text. */
  lemma {:induction false} ScanSeqStop(text: string, p: nat)
    requires p <= |text|
    ensures var r := ScanSeq(text, p);
      && p <= Stop(r) <= |text|
      && (forall k :: p <= k < Stop(r) ==> text[k] != '>')
      && (r.atHeader ==> Stop(r) < |text| && text[Stop(r)] == '>')
      && (!r.atHeader ==> Stop(r) == |text|)
    decreases |text| - p
  {
    if p < |text| && text[p] != '>' {
      ScanSeqStop(text, p + 1);
    }
  }

  /** Decoding the codes the sequence loop stores gives the text before the stop without its
      newlines and spaces, normalised. */
  lemma {:induction false} ScanSeqDecode(text: string, p: nat)
    requires p <= |text|
    ensures var r := ScanSeq(text, p);
      p <= Stop(r) <= |text| && Decode(r.codes) == Kept(text[p..Stop(r)])
    decreases |text| - p
  {
    ScanSeqStop(text, p);
    var r := ScanSeq(text, p);
    var e := Stop(r);
    if p == |text| || text[p] == '>' {
      assert text[p..e] == [];
    } else {
      ScanSeqDecode(text, p + 1);
      var r1 := ScanSeq(text, p + 1);
      assert Stop(r1) == e;
      assert text[p..e][0] == text[p] && text[p..e][1..] == text[p + 1..e];
      if text[p] != '\n' && text[p] != ' ' {
        CodeRoundTrip(text[p]);
        assert r.codes == [Code(text[p])] + r1.codes;
        assert Decode(r.codes) == [Normalize(text[p])] + Decode(r1.codes);
      }
    }
  }

  /** One character of the sequence loop, read at p with the position now at q. */
  lemma ScanSeqStep(text: string, p: nat, q: nat)
    requires p < |text| && q == p + 1
    ensures ScanSeq(text, p) ==
      if text[p] == '>' then SeqScan([], q, true)
      else if text[p] == '\n' || text[p] == ' ' then ScanSeq(text, q)
      else SeqScan([Code(text[p])] + ScanSeq(text, q).codes, ScanSeq(text, q).next, ScanSeq(text, q).atHeader)
  {
  }

  /** The codes read so far put in front of what the loop reads from here on. */
  function After(got: seq<int>, r: SeqScan): SeqScan
  {
    SeqScan(got + r.codes, r.next, r.atHeader)
  }

  lemma AfterSnoc(got: seq<int>, h: int, r: SeqScan)
    ensures After(got + [h], r) == After(got, SeqScan([h] + r.codes, r.next, r.atHeader))
  {
    assert (got + [h]) + r.codes == got + ([h] + r.codes);
  }

  /** The sequence loop of read_fasta_entry: reads characters until '>' (status 0) or EOF
      (status 1) into a buffer of 100000000 codes that doubles when only two places are left;
      the codes are followed by a 0. */
  method ReadBases(st: Stream) returns (status: int, buf: array<int>, length: nat)
    requires st.Valid()
    modifies st
    ensures st.Valid() && fresh(buf)
    ensures var r := ScanSeq(st.text, old(st.pos));
      && status == (if r.atHeader then 0 else 1)
      && length < buf.Length && buf[..length] == r.codes && buf[length] == 0
      && st.pos == r.next
  {
    ghost var p0 := st.pos;
    ghost var got: seq<int> := [];
    var size := 100000000;
    buf := new int[size];
    var i := 0;
    while true
      invariant st.Valid() && p0 <= st.pos
      invariant fresh(buf) && size == buf.Length && i <= size - 2
      invariant buf[..i] == got
      invariant ScanSeq(st.text, p0) == After(got, ScanSeq(st.text, st.pos))
      decreases |st.text| - st.pos
    {
      ghost var p := st.pos;
      var c := st.Getc();
      if c.None? {
        buf[i] := 0;
        assert buf[..i] == got;
        return 1, buf, i;
      }
      ScanSeqStep(st.text, p, st.pos);
      var ch := c.value;
      if ch == '>' {
        break;
      }
      if ch == '\n' || ch == ' ' {
        continue;
      }
      if IsLower(ch) {
        ch := ToUpper(ch);
      }
      if ch != 'A' && ch != 'C' && ch != 'G' && ch != 'T' {
        ch := 'N';
      }
      assert ch == Normalize(c.value);
      if i == size - 2 {
        buf := Grow(buf, i, 0);
        size := size * 2;
      }
      buf[i] := CharHash.Hash(ch);
      assert buf[..i + 1] == buf[..i] + [Code(c.value)];
      AfterSnoc(got, Code(c.value), ScanSeq(st.text, st.pos));
      got := got + [Code(c.value)];
      i := i + 1;
    }
    buf[i] := 0;
    assert buf[..i] == got;
    return 0, buf, i;
  }

  /** The header read_fasta_entry keeps: a header line read after an earlier entry has lost its
      '>' to that entry's sequence loop and gets it back. */
  function RestoredHeader(h: string): (r: string)
    requires |h| > 0
    ensures |r| > 0 && r[0] == '>'
  {
    if h[0] == '>' then h else ">" + CStr(h)
  }

  /** read_fasta_entry: a header line, then the sequence up to the next '>' or EOF.  -1 when no
      complete header line is left; -2 when the stream is read for the first time (flag 0) and
      its first line does not start with '>'; otherwise 0 when the next entry's '>' was met
      and 1 at EOF, with the codes of the sequence and their number stored in sq. */
  method ReadFastaEntry(st: Stream, sq: Sequence, flag: int) returns (status: int)
    requires st.Valid()
    modifies st, sq
    ensures st.Valid()
    ensures var p := old(st.pos);
      var e := LineEnd(st.text, p);
      if e == |st.text| then
        status == -1 && sq.header == None && sq.codes == null && sq.length == 0 && st.pos == |st.text|
      else if flag == 0 && st.text[p] != '>' then
        status == -2 && sq.header == None && sq.codes == null && sq.length == 0 && st.pos == e + 1
      else
        var r := ScanSeq(st.text, e + 1);
        && status == (if r.atHeader then 0 else 1)
        && sq.header == Some(RestoredHeader(st.text[p..e + 1]))
        && sq.codes != null && fresh(sq.codes)
        && 0 <= sq.length < sq.codes.Length
        && sq.codes[..sq.length] == r.codes && sq.codes[sq.length] == 0
        && st.pos == r.next
  {
    ghost var p := st.pos;
    var line, lineStatus := ReadLine(st);
    sq.header := line;
    if line.None? {
      sq.codes := null;
      sq.length := 0;
      return -1;
    }
    var h := line.value;
    assert h[0] == st.text[p];
    if flag == 0 && h[0] != '>' {
      sq.header := None;
      sq.codes := null;
      sq.length := 0;
      return -2;
    }
    if flag != 0 && h[0] != '>' {
      sq.header := Some(">" + CStr(h));
    }
    var buf, n;
    status, buf, n := ReadBases(st);
    sq.codes := buf;
    sq.length := n;
  }

  /** The line fprintf writes for a result, "%s\t%d\t%d\t%s\t%ld\t%c\n": its six fields, then '\n'. */
  function ResultLine(chrom: string, startPos: int, endPos: int, word: string, score: int, strand: char): string
  {
    ResultFields(chrom, startPos, endPos, word, score, strand) + "\n"
  }

  /** The fields of a result line, separated by tabs. */
  function ResultFields(chrom: string, startPos: int, endPos: int, word: string, score: int, strand: char): string
  {
    CStr(chrom) + ("\t" + (Decimal(startPos) + ("\t" + (Decimal(endPos) + ("\t" + (CStr(word)
      + ("\t" + (Decimal(score) + ("\t" + [strand])))))))))
  }

  /** write_result: the word of wordLen codes starting at s[at] is decoded with GET_CHAR; when
      the score reaches the cut-off a result line is written (with the reverse complement of
      the word, computed by compl, on the '-' strand) and n is the number of characters
      written, otherwise nothing is written and n is 999. */
  method WriteResult(score: int, cutOff: int, chrom: string, startPos: int, endPos: int, s: array<int>, at: nat,
                     wordLen: nat, strand: char, compl: string -> string)
    returns (n: int, out: string)
    requires at + wordLen <= s.Length
    requires forall k :: at <= k < at + wordLen ==> 0 <= s[k] < CharHash.NbLetter
    ensures score < cutOff ==> n == 999 && out == ""
    ensures score >= cutOff ==>
      var word := Decode(s[at..at + wordLen]);
      && out == ResultLine(chrom, startPos, endPos, if strand == '-' then compl(word) else word, score, strand)
      && n == |out|
  {
    n := 999;
    out := "";
    var word := new char[wordLen + 1](_ => '\0');
    for i := 0 to wordLen
      invariant forall k :: 0 <= k < i ==> word[k] == CharHash.GetChar(s[at + k])
      invariant word[wordLen] == '\0'
    {
      word[i] := CharHash.GetChar(s[at + i]);
    }
    var w := word[..wordLen];
    assert w == Decode(s[at..at + wordLen]);
    if score >= cutOff {
      if strand == '-' {
        out := ResultLine(chrom, startPos, endPos, compl(w), score, strand);
      } else {
        out := ResultLine(chrom, startPos, endPos, w, score, strand);
      }
      n := |out|;
    }
  }
}
