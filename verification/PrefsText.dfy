/** The text form of preferences: lines of a keyword, white space and a value. */
module PrefsText {
  import opened MacMemory

  const LINE_MAX: nat := 254        // what fgets() takes at once, the newline included
  const NAME_MAX: nat := 241        // leaves room for the longest number

  /** C strings hold no NUL. */
  type cstring = s: string | '\0' !in s

  predicate IsSpace(c: char) {
    c == ' ' || 9 <= c as int <= 13
  }

  predicate IsDigit(c: char) {
    '0' <= c <= '9'
  }

  // ------------------------------------------------------------- C string functions

  /** Position of the first NUL, the length if there is none. */
  function Strlen(s: string): (n: nat)
    ensures n <= |s| && '\0' !in s[..n] && (n < |s| ==> s[n] == '\0')
  {
    if s == "" || s[0] == '\0' then 0 else
    var n := 1 + Strlen(s[1..]);
    assert s[..n] == [s[0]] + s[1..][..n - 1];
    n
  }

  lemma {:induction false} StrlenIs(s: string, n: nat)
    requires n <= |s| && '\0' !in s[..n] && (n < |s| ==> s[n] == '\0')
    ensures Strlen(s) == n
  {
    if n > 0 {
      assert s[..n][0] == s[0];
      assert s[1..][..n - 1] == s[..n][1..];
      StrlenIs(s[1..], n - 1);
    }
  }

  /** Position of the first white space, the length if there is none. */
  function WordEnd(s: string): (k: nat)
    ensures k <= |s| && (forall i :: 0 <= i < k ==> !IsSpace(s[i])) && (k < |s| ==> IsSpace(s[k]))
  {
    if s == "" || IsSpace(s[0]) then 0 else 1 + WordEnd(s[1..])
  }

  lemma {:induction false} WordEndIs(s: string, k: nat)
    requires k <= |s| && (forall i :: 0 <= i < k ==> !IsSpace(s[i])) && (k < |s| ==> IsSpace(s[k]))
    ensures WordEnd(s) == k
  {
    if k > 0 {
      WordEndIs(s[1..], k - 1);
    }
  }

  /** s without its leading white space. */
  function SkipSpace(s: string): (r: string)
    ensures |r| <= |s| && !StartsWithSpace(r) && forall c :: c in r ==> c in s
  {
    if StartsWithSpace(s) then SkipSpace(s[1..]) else s
  }

  predicate StartsWithSpace(s: string) {
    s != "" && IsSpace(s[0])
  }

  // ------------------------------------------------------------- numbers

  function Digit(d: nat): (c: char)
    requires d < 10
    ensures IsDigit(c) && DigitValue(c) == d
  {
    '0' + d as char
  }

  function DigitValue(c: char): nat
    requires IsDigit(c)
  {
    c as int - '0' as int
  }

  /** The decimal digits of n. */
  function Digits(n: nat): (s: string)
    ensures s != "" && forall i :: 0 <= i < |s| ==> IsDigit(s[i])
  {
    if n < 10 then [Digit(n)] else Digits(n / 10) + [Digit(n % 10)]
  }

  /** What fprintf() writes for %d. */
  function Decimal(x: int): string {
    if x < 0 then "-" + Digits(-x) else Digits(x)
  }

  /** Numbers are written in base ten, the highest digit first. */
  lemma DecimalIsBaseTen(n: nat, d: nat)
    requires d < 10
    ensures Decimal(d) == ["0123456789"[d]]
    ensures n > 0 ==> Decimal(10 * n + d) == Decimal(n) + ["0123456789"[d]]
    ensures n > 0 ==> Decimal(-(n as int)) == "-" + Decimal(n)
  {
  }

  /** The number the digits at the start of s make up, after the digits of acc. */
  function Accumulate(s: string, acc: nat): nat {
    if s == "" || !IsDigit(s[0]) then acc else Accumulate(s[1..], 10 * acc + DigitValue(s[0]))
  }

  /** atol(): white space, a sign, digits; anything after them is ignored. */
  function Atol(s: string): int {
    var t := SkipSpace(s);
    if t != "" && t[0] == '-' then -(Accumulate(t[1..], 0) as int)
    else if t != "" && t[0] == '+' then Accumulate(t[1..], 0)
    else Accumulate(t, 0)
  }

  lemma {:induction false} DigitsReadBack(n: nat, rest: string)
    ensures Accumulate(Digits(n) + rest, 0) == Accumulate(rest, n)
  {
    if n < 10 {
      assert (Digits(n) + rest)[1..] == rest;
    } else {
      var last := [Digit(n % 10)];
      assert Digits(n) + rest == Digits(n / 10) + (last + rest);
      DigitsReadBack(n / 10, last + rest);
      assert (last + rest)[1..] == rest;
    }
  }

  lemma UnsignedReadsBack(n: nat)
    ensures Accumulate(Digits(n), 0) == n && IsDigit(Digits(n)[0])
  {
    assert Digits(n) + "" == Digits(n);
    DigitsReadBack(n, "");
  }

  lemma AtolOf(t: string)
    requires t != "" && !IsSpace(t[0])
    ensures Atol(t) == if t[0] == '-' then -(Accumulate(t[1..], 0) as int)
      else if t[0] == '+' then Accumulate(t[1..], 0) else Accumulate(t, 0)
  {
    hide Accumulate;
    assert SkipSpace(t) == t;
  }

  /** A printed number reads back. */
  lemma DecimalReadsBack(x: int32)
    ensures ToInt32(Atol(Decimal(x))) == x
  {
    hide Digits, Accumulate, ToInt32, Atol;
    Int32Stays(x);
    AtolOf(Decimal(x));
    if x < 0 {
      UnsignedReadsBack(-(x as int));
      assert Decimal(x)[1..] == Digits(-(x as int));
    } else {
      UnsignedReadsBack(x);
    }
  }

  lemma Int32Stays(x: int32)
    ensures ToInt32(x) == x
  {
  }

  lemma {:induction false} DigitCount(n: nat, k: nat, limit: nat)
    requires 1 <= k && n < limit && limit == Power10(k)
    ensures |Digits(n)| <= k
  {
    if n >= 10 {
      assert limit == 10 * Power10(k - 1);
      DigitCount(n / 10, k - 1, Power10(k - 1));
    }
  }

  function Power10(k: nat): nat {
    if k == 0 then 1 else 10 * Power10(k - 1)
  }

  // ------------------------------------------------------------- lines

  /** Text that can be a value: one line, not starting with white space. */
  predicate Plain(v: string) {
    '\n' !in v && '\0' !in v && !StartsWithSpace(v)
  }

  lemma DecimalIsPlain(x: int32)
    ensures Plain(Decimal(x)) && |Decimal(x)| <= 11
  {
    var n: nat := if x < 0 then -(x as int) else x;
    assert Power10(10) == 10_000_000_000 by {
      assert Power10(5) == 100_000;
    }
    DigitCount(n, 10, Power10(10));
  }

  predicate GoodName(name: string) {
    && |name| <= NAME_MAX
    && (forall c :: c in name ==> !IsSpace(c) && c != '\0')
    && !(name != "" && (name[0] == '#' || name[0] == ';'))
  }

  function PrintLine(name: string, value: string): string {
    name + " " + value + "\n"
  }

  /** The first newline is at this position, the length if there is none. */
  function NewlineAt(s: string): (n: nat)
    ensures n <= |s| && '\n' !in s[..n] && (n < |s| ==> s[n] == '\n')
  {
    if s == "" || s[0] == '\n' then 0 else
    var n := 1 + NewlineAt(s[1..]);
    assert s[..n] == [s[0]] + s[1..][..n - 1];
    n
  }

  /** How many characters fgets() takes: up to and including a newline, at most LINE_MAX. */
  function ChunkLength(text: string): (n: nat)
    ensures n <= |text| && n <= LINE_MAX && (text != "" ==> n > 0) && '\n' !in text[..if n == 0 then 0 else n - 1]
  {
    var n := NewlineAt(text);
    if n < |text| && n < LINE_MAX then n + 1 else if |text| <= LINE_MAX then |text| else LINE_MAX
  }

  /** What one line says. A line without any white space makes the program look for the end of the
      keyword beyond the end of the line. */
  datatype Parsed = Nothing | Setting(keyword: cstring, value: cstring) | Overrun

  function ParseChunk(chunk: string): Parsed {
    var n := Strlen(chunk);
    if n == 0 then Nothing else ParseLine(chunk[..n - 1])
  }

  function ParseLine(line: cstring): Parsed {
    if line != "" && (line[0] == '#' || line[0] == ';') then Nothing else
    var k := WordEnd(line);
    if k == |line| then Overrun else Setting(line[..k], SkipSpace(line[k + 1..]))
  }

  lemma {:induction false} NewlineIs(s: string, n: nat)
    requires n <= |s| && '\n' !in s[..n] && (n < |s| ==> s[n] == '\n')
    ensures NewlineAt(s) == n
  {
    if n > 0 {
      assert s[..n][0] == s[0];
      assert s[1..][..n - 1] == s[..n][1..];
      NewlineIs(s[1..], n - 1);
    }
  }

  /** A printed line is taken as a whole and parsed to what was printed. */
  lemma PrintedLineParses(name: cstring, value: cstring, rest: string)
    requires GoodName(name) && Plain(value) && |name| + |value| + 2 <= LINE_MAX
    ensures var line := PrintLine(name, value);
      && ChunkLength(line + rest) == |line| && (line + rest)[..|line|] == line && (line + rest)[|line|..] == rest
      && ParseChunk(line) == Setting(name, value)
  {
    var line := PrintLine(name, value);
    var n := |line| - 1;
    assert line[..n] == name + " " + value;
    assert (line + rest)[..n] == line[..n];
    assert '\n' !in name;
    NewlineIs(line + rest, n);
    StrlenIs(line, |line|);
    var l := line[..n];
    assert l[..|name|] == name && l[|name| + 1..] == value;
    assert forall i :: 0 <= i < |name| ==> l[i] == name[i];
    WordEndIs(l, |name|);
  }

  /** Whatever is read as a value has no line break, does not start with white space, and fits. */
  lemma ParsedIsPlain(text: string)
    requires text != ""
    ensures match ParseChunk(text[..ChunkLength(text)])
            case Setting(keyword, value) => Plain(value) && |keyword| + |value| + 2 <= LINE_MAX
            case _ => true
  {
    hide Strlen, ParseLine, ChunkLength, Plain;
    var chunk := text[..ChunkLength(text)];
    var n := Strlen(chunk);
    if n > 0 {
      assert chunk[..n - 1] == text[..ChunkLength(text) - 1][..n - 1];
      LineIsPlain(chunk[..n - 1]);
    }
  }

  lemma LineIsPlain(line: cstring)
    requires '\n' !in line
    ensures match ParseLine(line)
            case Setting(keyword, value) => Plain(value) && |keyword| + |value| + 1 <= |line|
            case _ => true
  {
    hide WordEnd, SkipSpace;
    var k := WordEnd(line);
    if k < |line| {
      var value := SkipSpace(line[k + 1..]);
      assert forall c :: c in value ==> c in line;
    }
  }

  /** A chunk in which the end of the keyword is found: it is empty as a C string, or a comment, or
      has white space before its last character. */
  predicate Readable(chunk: string) {
    var n := Strlen(chunk);
    || n == 0
    || (n > 1 && (chunk[0] == '#' || chunk[0] == ';'))
    || exists i :: 0 <= i < n - 1 && IsSpace(chunk[i])
  }

  lemma OverrunsIffNotReadable(chunk: string)
    ensures ParseChunk(chunk) == Overrun <==> !Readable(chunk)
  {
    hide Strlen;
    var n := Strlen(chunk);
    if n > 0 {
      var line := chunk[..n - 1];
      assert forall i :: 0 <= i < n - 1 ==> line[i] == chunk[i];
    }
  }

  /** Every line of the text can be read, as the program cuts it into lines. */
  predicate AllReadable(text: string)
    decreases |text|
  {
    text == "" || (Readable(text[..ChunkLength(text)]) && AllReadable(text[ChunkLength(text)..]))
  }

  /** An empty line overruns. */
  lemma EmptyLineOverruns(rest: string)
    ensures var text := "\n" + rest; ParseChunk(text[..ChunkLength(text)]) == Overrun
  {
    var text := "\n" + rest;
    NewlineIs(text, 0);
    StrlenIs("\n", 1);
    assert text[..1] == "\n";
  }

  /** A line of more than 254 characters is cut there. */
  lemma LongLineIsCut(text: string)
    requires |text| >= 254 && '\n' !in text[..253]
    ensures ChunkLength(text) == 254
  {
    assert forall i :: 0 <= i < 253 ==> text[i] == text[..253][i];
  }

  /** The last character of a last line goes even if it is not a newline. */
  lemma LastLineLosesItsEnd(line: cstring, c: char)
    requires '\n' !in line && c != '\n' && c != '\0' && |line| < LINE_MAX
    ensures ChunkLength(line + [c]) == |line| + 1 && ParseChunk(line + [c]) == ParseChunk(line + "\n")
  {
    NewlineIs(line + [c], |line| + 1);
    StrlenIs(line + [c], |line| + 1);
    StrlenIs(line + "\n", |line| + 1);
    assert (line + [c])[..|line|] == line == (line + "\n")[..|line|];
  }
}
