/**
 * Segment files (src/segment.c). A memtable is written out in key order,
 * one `key,value` line per node; a line is read back into a caller's buffer
 * with its newline optionally cut off. Keys are printed with `%d` and read
 * back with `strtok` and `atoi`, as the merge does.
 */
module Segment {
  import opened Common
  import opened Tree

  // ---------------------------------------------------------------------
  // Printing and parsing a key
  // ---------------------------------------------------------------------

  function DigitChar(d: int): char
    requires 0 <= d < 10
  {
    (48 + d) as char
  }

  predicate IsDigit(c: char)
  {
    '0' <= c <= '9'
  }

  function DigitValue(c: char): int
    requires IsDigit(c)
  {
    c as int - 48
  }

  /** The decimal digits of `n`, most significant first, without leading zeros. */
  function Digits(n: nat): (s: string)
    ensures s != [] && forall i :: 0 <= i < |s| ==> IsDigit(s[i])
    ensures |s| > 1 ==> s[0] != '0'
    decreases n
  {
    if n < 10 then [DigitChar(n)] else Digits(n / 10) + [DigitChar(n % 10)]
  }

  /** `%d`: a minus sign for a negative key, then the digits of its magnitude. */
  function DecimalString(k: int): (s: string)
    ensures s != [] && ',' !in s && '\n' !in s
  {
    var ds := if k < 0 then "-" + Digits(-k) else Digits(k);
    assert forall i :: 0 <= i < |ds| ==> ds[i] != ',' && ds[i] != '\n';
    ds
  }

  /** The value of a run of decimal digits. */
  function DigitsValue(s: string): int
    requires forall i :: 0 <= i < |s| ==> IsDigit(s[i])
    decreases |s|
  {
    if s == [] then 0 else 10 * DigitsValue(s[..|s| - 1]) + DigitValue(s[|s| - 1])
  }

  /** The longest prefix of `s` made of digits. */
  function LeadingDigits(s: string): (ds: string)
    ensures ds <= s && forall i :: 0 <= i < |ds| ==> IsDigit(ds[i])
    ensures |ds| < |s| ==> !IsDigit(s[|ds|])
    decreases |s|
  {
    if s != [] && IsDigit(s[0]) then [s[0]] + LeadingDigits(s[1..]) else []
  }

  /** The white space `isspace` accepts in the C locale. */
  predicate IsSpace(c: char)
  {
    c == ' ' || c == '\t' || c == '\n' || c == '\U{B}' || c == '\U{C}' || c == '\r'
  }

  /** atoi: leading white space skipped, an optional sign, then the value of the leading digits. */
  function Atoi(s: string): int
    decreases |s|
  {
    if s != [] && IsSpace(s[0]) then Atoi(s[1..])
    else if s != [] && s[0] == '-' then -DigitsValue(LeadingDigits(s[1..]))
    else if s != [] && s[0] == '+' then DigitsValue(LeadingDigits(s[1..]))
    else DigitsValue(LeadingDigits(s))
  }

  /** strtok(line, ","): skip leading commas, then the text up to the next comma. */
  function FirstToken(s: string): (tok: string)
    ensures ',' !in tok
    decreases |s|
  {
    if s != [] && s[0] == ',' then FirstToken(s[1..]) else UpToComma(s)
  }

  /** The text before the first comma (all of `s` when there is none). */
  function UpToComma(s: string): (tok: string)
    ensures tok <= s && ',' !in tok
    ensures |tok| < |s| ==> s[|tok|] == ','
    decreases |s|
  {
    if s == [] || s[0] == ',' then [] else [s[0]] + UpToComma(s[1..])
  }

  /** The text after the first comma (empty when there is none). */
  function AfterComma(s: string): string
    decreases |s|
  {
    if s == [] then [] else if s[0] == ',' then s[1..] else AfterComma(s[1..])
  }

  /** Reading the digits of `n` back yields `n`. */
  lemma {:induction false} DigitsRoundTrip(n: nat)
    ensures LeadingDigits(Digits(n)) == Digits(n)
    ensures DigitsValue(Digits(n)) == n
    decreases n
  {
    AllDigits(Digits(n));
    if n >= 10 {
      DigitsRoundTrip(n / 10);
      var s := Digits(n);
      assert s[..|s| - 1] == Digits(n / 10);
    }
  }

  lemma {:induction false} AllDigits(s: string)
    requires forall i :: 0 <= i < |s| ==> IsDigit(s[i])
    ensures LeadingDigits(s) == s
    decreases |s|
  {
    if s != [] {
      AllDigits(s[1..]);
    }
  }

  /** atoi inverts `%d`. */
  lemma AtoiDecimal(k: int)
    ensures Atoi(DecimalString(k)) == k
  {
    var s := DecimalString(k);
    if k < 0 {
      var ds := Digits(-k);
      DigitsRoundTrip(-k);
      assert s == "-" + ds && s[1..] == ds && !IsSpace(s[0]);
      assert Atoi(s) == -DigitsValue(LeadingDigits(ds));
    } else {
      var ds := Digits(k);
      DigitsRoundTrip(k);
      assert IsDigit(ds[0]);
      assert s == ds && !IsSpace(s[0]) && s[0] != '-' && s[0] != '+';
      assert Atoi(s) == DigitsValue(LeadingDigits(ds));
    }
  }

  // ---------------------------------------------------------------------
  // Lines of a segment file
  // ---------------------------------------------------------------------

  /** The line fprintf writes for one record: key, comma, value, newline. */
  function Line(r: Record): string
  {
    DecimalString(r.key) + "," + r.value + "\n"
  }

  function Lines(rs: seq<Record>): (ls: seq<string>)
    ensures |ls| == |rs|
    ensures forall i :: 0 <= i < |rs| ==> ls[i] == Line(rs[i])
  {
    seq(|rs|, i requires 0 <= i < |rs| => Line(rs[i]))
  }

  /** The key of a line as the merge reads it: atoi of the first comma-separated token. */
  function ParseKey(line: string): int
  {
    Atoi(FirstToken(line))
  }

  /** A whole record back from one line: the key, and the text after the first comma without the newline. */
  function ParseLine(line: string): Record
  {
    var v := AfterComma(line);
    Record(ParseKey(line), if v != [] && v[|v| - 1] == '\n' then v[..|v| - 1] else v)
  }

  function ParseSegment(lines: seq<string>): (rs: seq<Record>)
    ensures |rs| == |lines|
    ensures forall i :: 0 <= i < |lines| ==> rs[i] == ParseLine(lines[i])
  {
    seq(|lines|, i requires 0 <= i < |lines| => ParseLine(lines[i]))
  }

  lemma CommaSplit(a: string, b: string)
    requires ',' !in a && a != []
    ensures FirstToken(a + "," + b) == a
    ensures AfterComma(a + "," + b) == b
  {
    UpToCommaPrefix(a, b);
    AfterCommaPrefix(a, b);
  }

  lemma {:induction false} UpToCommaPrefix(a: string, b: string)
    requires ',' !in a
    ensures UpToComma(a + "," + b) == a
    decreases |a|
  {
    if a != [] {
      UpToCommaPrefix(a[1..], b);
      assert (a + "," + b)[1..] == a[1..] + "," + b;
    }
  }

  lemma {:induction false} AfterCommaPrefix(a: string, b: string)
    requires ',' !in a
    ensures AfterComma(a + "," + b) == b
    decreases |a|
  {
    if a == [] {
      assert (a + "," + b)[1..] == b;
    } else {
      AfterCommaPrefix(a[1..], b);
      assert (a + "," + b)[1..] == a[1..] + "," + b;
    }
  }

  /**
   * Parsing a written line recovers its key, as the merge reads it with
   * strtok and atoi, and ParseLine, the model's own reader, recovers the
   * whole record; the merge itself keeps only the key.
   */
  lemma LineRoundTrip(r: Record)
    ensures ParseKey(Line(r)) == r.key
    ensures ParseLine(Line(r)) == r
  {
    var d := DecimalString(r.key);
    assert Line(r) == d + "," + (r.value + "\n");
    CommaSplit(d, r.value + "\n");
    AtoiDecimal(r.key);
    assert (r.value + "\n")[..|r.value|] == r.value;
  }

  lemma LinesRoundTrip(rs: seq<Record>)
    ensures ParseSegment(Lines(rs)) == rs
  {
    forall i | 0 <= i < |rs| ensures ParseSegment(Lines(rs))[i] == rs[i] {
      LineRoundTrip(rs[i]);
    }
  }

  // ---------------------------------------------------------------------
  // inorder_to_file
  // ---------------------------------------------------------------------

  /**
   * inorder_to_file: the lines written for the tree under `node`, left
   * subtree first, then the node, then the right subtree; nothing for null.
   */
  function InorderToFile(node: MNode?, ghost t: GTree): (lines: seq<string>)
    reads NodesOf(t)
    requires Agree(t) && node == Root(t)
    ensures lines == Lines(InOrder(t))
    decreases t
  {
    if node == null then []
    else
      AgreeNode(t);
      var lines := InorderToFile(node.left, t.left) + [Line(Record(node.key, node.data))]
        + InorderToFile(node.right, t.right);
      assert lines == Lines(InOrder(t));
      lines
  }

  /**
   * The segment written for a binary search tree: one line per node, read
   * back as exactly the tree's records in strictly ascending key order, so
   * the keys the merge parses ascend and the segment denotes the tree's map.
   */
  lemma FlushedSegment(t: GTree)
    requires Ordered(t)
    ensures |Lines(InOrder(t))| == Size(t)
    ensures ParseSegment(Lines(InOrder(t))) == InOrder(t)
    ensures StrictlyAscending(ParseSegment(Lines(InOrder(t))))
    ensures AsMap(ParseSegment(Lines(InOrder(t)))) == MapOf(t)
    ensures forall i, j :: 0 <= i < j < Size(t) ==>
      ParseKey(Lines(InOrder(t))[i]) < ParseKey(Lines(InOrder(t))[j])
  {
    InOrderKeys(t);
    InOrderMap(t);
    LinesRoundTrip(InOrder(t));
    var rs := InOrder(t);
    forall i | 0 <= i < |rs| ensures ParseKey(Lines(rs)[i]) == rs[i].key {
      LineRoundTrip(rs[i]);
    }
  }

  // ---------------------------------------------------------------------
  // readline_from_segment
  // ---------------------------------------------------------------------

  /**
   * How many characters fgets takes from `input` with room for `room`
   * characters: as many as fit, ending at the first newline.
   */
  function FgetsLen(input: seq<char>, room: nat): (n: nat)
    ensures n <= room && n <= |input|
    ensures forall i :: 0 <= i < n - 1 ==> input[i] != '\n'
    ensures n < room && n < |input| ==> n > 0 && input[n - 1] == '\n'
    ensures room > 0 && input != [] ==> n > 0
    decreases room
  {
    if room == 0 || input == [] then 0
    else if input[0] == '\n' then 1
    else 1 + FgetsLen(input[1..], room - 1)
  }

  /** The length of the C string held by `s`: the characters before the first NUL. */
  function CLen(s: seq<char>): (n: nat)
    ensures n <= |s| && forall i :: 0 <= i < n ==> s[i] != '\0'
    ensures n < |s| ==> s[n] == '\0'
    decreases |s|
  {
    if s == [] || s[0] == '\0' then 0 else 1 + CLen(s[1..])
  }

  function CString(s: seq<char>): seq<char>
  {
    s[..CLen(s)]
  }

  /** strchr: the position of the first `c` in the C string held by `s`. */
  function StrChr(s: seq<char>, c: char): (r: Option<nat>)
    requires c != '\0'
    ensures r.Some? ==> r.value < CLen(s) && s[r.value] == c && forall i :: 0 <= i < r.value ==> s[i] != c
    ensures r.None? ==> forall i :: 0 <= i < CLen(s) ==> s[i] != c
    decreases |s|
  {
    if s == [] || s[0] == '\0' then None
    else if s[0] == c then Some(0)
    else match StrChr(s[1..], c)
      case None => None
      case Some(i) => Some(i + 1)
  }

  /** The buffer after fgets: the characters taken and a NUL, or untouched at end of input. */
  function AfterFgets(buf: seq<char>, input: seq<char>, bufSize: int): seq<char>
    requires 1 <= bufSize <= |buf|
  {
    if input == [] then buf
    else
      var n := FgetsLen(input, bufSize - 1);
      input[..n] + ['\0'] + buf[n + 1..]
  }

  /** The buffer once its first newline (before the NUL) is overwritten by a NUL. */
  function CutNewline(buf: seq<char>): seq<char>
  {
    match StrChr(buf, '\n')
      case None => buf
      case Some(i) => buf[i := '\0']
  }

  /**
   * fgets on the rest `input` of an open file: at end of input the buffer is
   * untouched; otherwise the characters taken and a NUL are stored.
   */
  method Fgets(line: array<char>, bufSize: int, input: seq<char>) returns (rest: seq<char>, ok: bool)
    requires 1 <= bufSize <= line.Length
    modifies line
    ensures line[..] == AfterFgets(old(line[..]), input, bufSize)
    ensures ok <==> input != []
    ensures rest == input[FgetsLen(input, bufSize - 1)..]
  {
    var n := FgetsLen(input, bufSize - 1);
    rest := input[n..];
    ok := input != [];
    if ok {
      for i := 0 to n
        invariant line[..i] == input[..i]
        invariant line[i..] == old(line[i..])
      {
        line[i] := input[i];
        assert line[..i + 1] == input[..i + 1];
      }
      line[n] := '\0';
      assert line[..] == input[..n] + ['\0'] + old(line[..])[n + 1..];
    }
  }

  /**
   * readline_from_segment: read one line into `line` and, when asked, cut it
   * at its newline. The rest of the input is returned.
   */
  method ReadlineFromSegment(line: array<char>, bufSize: int, input: seq<char>, rmNewline: bool)
      returns (rest: seq<char>)
    requires 1 <= bufSize <= line.Length
    modifies line
    ensures line[..] ==
      if rmNewline then CutNewline(AfterFgets(old(line[..]), input, bufSize))
      else AfterFgets(old(line[..]), input, bufSize)
    ensures rest == input[FgetsLen(input, bufSize - 1)..]
  {
    var ok;
    rest, ok := Fgets(line, bufSize, input);
    if rmNewline {
      var p := StrChr(line[..], '\n');
      if p.Some? {
        line[p.value] := '\0';
      }
    }
  }

  /**
   * Cutting at the newline: the resulting string is the part of the old
   * string before its first newline, unchanged, and holds no newline.
   */
  lemma CutNewlineString(buf: seq<char>)
    ensures CString(CutNewline(buf)) <= CString(buf)
    ensures '\n' !in CString(CutNewline(buf))
    ensures '\n' !in CString(buf) ==> CString(CutNewline(buf)) == CString(buf)
    ensures '\n' in CString(buf) ==>
      |CString(CutNewline(buf))| < |CString(buf)| && CString(buf)[|CString(CutNewline(buf))|] == '\n'
  {
    match StrChr(buf, '\n')
    case None =>
    case Some(i) =>
      CLenAt(buf[i := '\0'], i);
  }

  lemma {:induction false} CLenAt(s: seq<char>, i: nat)
    requires i < |s| && s[i] == '\0' && forall j :: 0 <= j < i ==> s[j] != '\0'
    ensures CLen(s) == i
    decreases i
  {
    if i > 0 {
      CLenAt(s[1..], i - 1);
    }
  }

  /**
   * Reading a written segment line with newline removal: a line that fits
   * the buffer comes back as the text before its newline, and reading goes
   * on after the newline.
   */
  lemma ReadWrittenLine(buf: seq<char>, bufSize: int, text: string, more: seq<char>)
    requires 1 <= bufSize <= |buf| && |text| + 1 <= bufSize - 1
    requires '\n' !in text && '\0' !in text
    ensures FgetsLen(text + "\n" + more, bufSize - 1) == |text| + 1
    ensures CString(CutNewline(AfterFgets(buf, text + "\n" + more, bufSize))) == text
    ensures (text + "\n" + more)[|text| + 1..] == more
  {
    var input := text + "\n" + more;
    FgetsTakesLine(text, more, bufSize - 1);
    var b := AfterFgets(buf, input, bufSize);
    assert b[..|text| + 1] == text + "\n";
    CLenAt(b, |text| + 1);
    CutNewlineString(b);
    assert CString(b) == text + "\n";
    assert CString(b)[|text|] == '\n';
  }

  lemma {:induction false} FgetsTakesLine(text: string, more: seq<char>, room: nat)
    requires |text| + 1 <= room && '\n' !in text
    ensures FgetsLen(text + "\n" + more, room) == |text| + 1
    decreases |text|
  {
    if text != [] {
      FgetsTakesLine(text[1..], more, room - 1);
      assert (text + "\n" + more)[1..] == text[1..] + "\n" + more;
    }
  }
}
