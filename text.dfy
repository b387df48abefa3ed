/** The failure-compatible Option used throughout the model: None stands for the
    C functions' -1 / NULL / "nothing written" results. */
module Options {
  datatype Option<+T> = None | Some(value: T) {
    predicate IsFailure() { None? }

    function PropagateFailure<U>(): Option<U>
      requires None?
    {
      None
    }

    function Extract(): T
      requires Some?
    {
      value
    }
  }
}

/** Character classes, digit strings and the small string routines of the C
    library that the scanner, the codec and the shell rely on (isdigit,
    isxdigit, isspace, strstr, atoi, the digit runs read by the scanf family). */
module Text {
  import opened Options

  predicate IsDigit(c: char) { '0' <= c <= '9' }

  predicate IsHexDigit(c: char) { IsDigit(c) || 'a' <= c <= 'f' || 'A' <= c <= 'F' }

  /** isspace() in the C locale: space, \t, \n, \v, \f, \r */
  predicate IsSpace(c: char) { c == ' ' || ('\t' <= c <= '\r') }

  function DigitValue(c: char): (v: nat)
    requires IsDigit(c)
    ensures v < 10
  {
    c as int - '0' as int
  }

  function HexDigitValue(c: char): (v: nat)
    requires IsHexDigit(c)
    ensures v < 16
    ensures IsDigit(c) ==> v == DigitValue(c)
  {
    if IsDigit(c) then c as int - '0' as int
    else if 'a' <= c <= 'f' then c as int - 'a' as int + 10
    else c as int - 'A' as int + 10
  }

  /** The upper-case digit printed by "%X"; HexDigitValue undoes it. */
  function HexChar(v: nat): (c: char)
    requires v < 16
    ensures IsHexDigit(c) && HexDigitValue(c) == v
  {
    if v < 10 then ('0' as int + v) as char else ('A' as int + v - 10) as char
  }

  function DecChar(v: nat): (c: char)
    requires v < 10
    ensures IsDigit(c) && DigitValue(c) == v
  {
    ('0' as int + v) as char
  }

  predicate AllHex(s: string) { forall i :: 0 <= i < |s| ==> IsHexDigit(s[i]) }

  predicate AllDigits(s: string) { forall i :: 0 <= i < |s| ==> IsDigit(s[i]) }

  function Pow(b: nat, e: nat): (p: nat)
    ensures b > 0 ==> p > 0
  {
    if e == 0 then 1 else b * Pow(b, e - 1)
  }

  /** Value of a string of hex digits, most significant first. */
  function HexValue(s: string): (v: nat)
    requires AllHex(s)
    ensures v < Pow(16, |s|)
  {
    if s == [] then 0 else HexValue(s[..|s| - 1]) * 16 + HexDigitValue(s[|s| - 1])
  }

  /** Value of a string of decimal digits, most significant first. */
  function DecValue(s: string): (v: nat)
    requires AllDigits(s)
    ensures v < Pow(10, |s|)
  {
    if s == [] then 0 else DecValue(s[..|s| - 1]) * 10 + DigitValue(s[|s| - 1])
  }

  /** n written with exactly w upper-case hex digits (the kernel's "%0wX"). */
  function HexString(n: nat, w: nat): (s: string)
    ensures |s| == w && AllHex(s)
  {
    if w == 0 then [] else HexString(n / 16, w - 1) + [HexChar(n % 16)]
  }

  /** n in decimal without leading zeros ("%d" / "%llu" of a non-negative value). */
  function DecString(n: nat): (s: string)
    ensures |s| > 0 && AllDigits(s)
    decreases n
  {
    if n < 10 then [DecChar(n)] else DecString(n / 10) + [DecChar(n % 10)]
  }

  lemma {:induction false} HexStringValue(n: nat, w: nat)
    requires n < Pow(16, w)
    ensures HexValue(HexString(n, w)) == n
  {
    if w > 0 {
      var s := HexString(n, w);
      assert s[..|s| - 1] == HexString(n / 16, w - 1);
      assert n / 16 < Pow(16, w - 1);
      HexStringValue(n / 16, w - 1);
    }
  }

  lemma {:induction false} DecStringValue(n: nat)
    ensures DecValue(DecString(n)) == n
    decreases n
  {
    if n >= 10 {
      var s := DecString(n);
      assert s[..|s| - 1] == DecString(n / 10);
      DecStringValue(n / 10);
    }
  }

  /** Number of leading hex digits of s, at most width: what "%<width>X" consumes. */
  function HexRun(s: string, width: nat): (k: nat)
    ensures k <= width && k <= |s|
    ensures forall i :: 0 <= i < k ==> IsHexDigit(s[i])
    ensures k < width && k < |s| ==> !IsHexDigit(s[k])
  {
    if width == 0 || s == [] || !IsHexDigit(s[0]) then 0 else 1 + HexRun(s[1..], width - 1)
  }

  /** Number of leading decimal digits of s. */
  function DigitRun(s: string): (k: nat)
    ensures k <= |s|
    ensures forall i :: 0 <= i < k ==> IsDigit(s[i])
    ensures k < |s| ==> !IsDigit(s[k])
  {
    if s == [] || !IsDigit(s[0]) then 0 else 1 + DigitRun(s[1..])
  }

  /** The digit run of a digit string followed by a non-digit is the whole string. */
  lemma {:induction false} DigitRunOf(d: string, tail: string)
    requires AllDigits(d)
    requires tail == [] || !IsDigit(tail[0])
    ensures DigitRun(d + tail) == |d|
  {
    if d != [] {
      assert (d + tail)[1..] == d[1..] + tail;
      DigitRunOf(d[1..], tail);
    }
  }

  /** The hex run of a hex string followed by a non-hex character (or the width
      limit) is the whole string. */
  lemma {:induction false} HexRunOf(d: string, tail: string, width: nat)
    requires AllHex(d) && |d| <= width
    requires |d| == width || tail == [] || !IsHexDigit(tail[0])
    ensures HexRun(d + tail, width) == |d|
  {
    if d != [] {
      assert (d + tail)[1..] == d[1..] + tail;
      HexRunOf(d[1..], tail, width - 1);
    }
  }

  /** atoi() on a string that starts with its digits: the value of the leading
      digit run, 0 when there is none. */
  function Atoi(s: string): (n: nat)
    ensures n < Pow(10, |s|)
  {
    var k := DigitRun(s);
    assert Pow(10, k) <= Pow(10, |s|) by { PowMonotone(10, k, |s|); }
    DecValue(s[..k])
  }

  lemma {:induction false} PowMonotone(b: nat, e1: nat, e2: nat)
    requires b > 0 && e1 <= e2
    ensures Pow(b, e1) <= Pow(b, e2)
    decreases e2
  {
    if e1 < e2 {
      PowMonotone(b, e1, e2 - 1);
    }
  }

  lemma {:induction false} AtoiDecString(n: nat)
    ensures Atoi(DecString(n)) == n
  {
    var s := DecString(n);
    DigitRunOf(s, []);
    assert s + [] == s;
    assert s[..|s|] == s;
    DecStringValue(n);
  }

  /** trim_newline: drop one trailing '\n'. */
  function TrimNewline(s: string): (r: string)
    ensures r <= s && |s| - 1 <= |r|
    ensures |r| < |s| <==> (|s| > 0 && s[|s| - 1] == '\n')
  {
    if |s| > 0 && s[|s| - 1] == '\n' then s[..|s| - 1] else s
  }

  lemma TrimNewlineAppended(s: string)
    ensures TrimNewline(s + "\n") == s
    ensures (|s| == 0 || s[|s| - 1] != '\n') ==> TrimNewline(s) == s
  {
    assert (s + "\n")[..|s|] == s;
  }

  /** The shell's "while (*p == ' ') p++": drop leading blanks (spaces only). */
  function SkipBlanks(s: string): (r: string)
    ensures |r| <= |s| && r == s[|s| - |r|..]
    ensures r == [] || r[0] != ' '
    ensures forall i :: 0 <= i < |s| - |r| ==> s[i] == ' '
  {
    if s != [] && s[0] == ' ' then SkipBlanks(s[1..]) else s
  }

  /** Whether needle occurs in hay at position i. */
  predicate OccursAt(hay: string, needle: string, i: nat)
  {
    i + |needle| <= |hay| && hay[i..i + |needle|] == needle
  }

  /** strstr: the first position, from start on, at which needle occurs in hay. */
  function StrStrFrom(hay: string, needle: string, start: nat): (r: Option<nat>)
    ensures r.Some? ==> start <= r.value && OccursAt(hay, needle, r.value)
    ensures r.Some? ==> forall j :: start <= j < r.value ==> !OccursAt(hay, needle, j)
    ensures r.None? ==> forall j :: start <= j ==> !OccursAt(hay, needle, j)
    decreases |hay| - start
  {
    if start + |needle| > |hay| then None
    else if hay[start..start + |needle|] == needle then Some(start)
    else StrStrFrom(hay, needle, start + 1)
  }

  function StrStr(hay: string, needle: string): (r: Option<nat>)
  {
    StrStrFrom(hay, needle, 0)
  }

  /** strstr(hay, needle) != NULL */
  predicate Contains(hay: string, needle: string)
  {
    StrStr(hay, needle).Some?
  }

  lemma ContainsIff(hay: string, needle: string)
    ensures Contains(hay, needle) <==> exists i: nat :: OccursAt(hay, needle, i)
  {
    var r := StrStr(hay, needle);
    if r.Some? {
      assert OccursAt(hay, needle, r.value);
    }
  }

  /** Index of the first non-space character at or after i (scanf's implicit skip). */
  function SkipSpaces(s: string, i: nat): (j: nat)
    requires i <= |s|
    ensures i <= j <= |s|
    ensures forall k :: i <= k < j ==> IsSpace(s[k])
    ensures j < |s| ==> !IsSpace(s[j])
    decreases |s| - i
  {
    if i < |s| && IsSpace(s[i]) then SkipSpaces(s, i + 1) else i
  }

  /** "%d": optional white space, an optional sign, then at least one digit. */
  function ScanInt(s: string): (r: Option<int>)
    ensures (forall i :: 0 <= i < |s| ==> !IsDigit(s[i])) ==> r.None?
    ensures r.Some? ==> var j := SkipSpaces(s, 0);
      j < |s| && (IsDigit(s[j]) || ((s[j] == '-' || s[j] == '+') && j + 1 < |s| && IsDigit(s[j + 1])))
    ensures r.Some? && r.value < 0 ==> s[SkipSpaces(s, 0)] == '-'
  {
    var j := SkipSpaces(s, 0);
    var neg := j < |s| && s[j] == '-';
    var k := if j < |s| && (s[j] == '-' || s[j] == '+') then j + 1 else j;
    var n := DigitRun(s[k..]);
    if n == 0 then None
    else
      var v: int := DecValue(s[k..][..n]);
      Some(if neg then -v else v)
  }

  lemma {:induction false} ScanIntDecString(n: nat, tail: string)
    requires tail == [] || !IsDigit(tail[0])
    ensures ScanInt(" " + DecString(n) + tail) == Some(n)
  {
    var s := " " + DecString(n) + tail;
    var d := DecString(n);
    assert SkipSpaces(s, 1) == 1;
    assert SkipSpaces(s, 0) == 1;
    assert s[1..] == d + tail;
    DigitRunOf(d, tail);
    assert (d + tail)[..|d|] == d;
    DecStringValue(n);
  }
}
