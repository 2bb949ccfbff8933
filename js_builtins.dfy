/**
 * The JavaScript built-ins the client code leans on, over ASCII text:
 * String.prototype.trim and split, parseInt with radix 10, the decimal
 * rendering of an integer inside a template string, and
 * Array.prototype.indexOf.
 */
module JsBuiltins {

  datatype Option<T> = None | Some(value: T)

  /** The character classes of the verse-reference pattern: `\s`, `[A-Za-z]` and `\d`. */
  datatype CharClass = Space | Letter | Digit

  /** ASCII whitespace: space, tab, line feed, vertical tab, form feed, carriage return. */
  predicate IsSpace(c: char) {
    c == ' ' || c == '\t' || c == '\n' || c == '\r' || c == '\U{000B}' || c == '\U{000C}'
  }

  predicate IsLetter(c: char) {
    ('A' <= c <= 'Z') || ('a' <= c <= 'z')
  }

  predicate IsDigit(c: char) {
    '0' <= c <= '9'
  }

  predicate InClass(c: char, k: CharClass) {
    if k == Space then IsSpace(c) else if k == Letter then IsLetter(c) else IsDigit(c)
  }

  predicate AllIn(s: string, k: CharClass) {
    forall i :: 0 <= i < |s| ==> InClass(s[i], k)
  }

  /** Length of the longest prefix of `s` in class `k`: what a greedy `k*` consumes. */
  function Run(s: string, k: CharClass): (n: nat)
    ensures n <= |s| && AllIn(s[..n], k)
    ensures n < |s| ==> !InClass(s[n], k)
  {
    if s == [] || !InClass(s[0], k) then 0 else 1 + Run(s[1..], k)
  }

  /** Every character of `s` from index `lo` up to `hi` is in class `k`. */
  predicate AllInRange(s: string, lo: int, hi: int, k: CharClass)
    requires 0 <= lo <= hi <= |s|
  {
    forall i :: lo <= i < hi ==> InClass(s[i], k)
  }

  /** Where a greedy `k*` that starts at index `p` of `s` stops: one step of a scanner. */
  function RunFrom(s: string, p: nat, k: CharClass): (q: nat)
    requires p <= |s|
    ensures p <= q <= |s| && AllInRange(s, p, q, k)
    ensures q < |s| ==> !InClass(s[q], k)
    decreases |s| - p
  {
    if p == |s| || !InClass(s[p], k) then p else RunFrom(s, p + 1, k)
  }

  /** A greedy step stops exactly where its class stops. */
  lemma {:induction false} RunFromExact(s: string, p: nat, q: nat, k: CharClass)
    requires p <= q <= |s| && AllInRange(s, p, q, k)
    requires q < |s| ==> !InClass(s[q], k)
    ensures RunFrom(s, p, k) == q
    decreases q - p
  {
    if p < q {
      RunFromExact(s, p + 1, q, k);
    }
  }

  /** Length of the longest suffix of `s` in class `k`. */
  function RunEnd(s: string, k: CharClass): (n: nat)
    ensures n <= |s| && AllIn(s[|s| - n..], k)
    ensures n < |s| ==> !InClass(s[|s| - n - 1], k)
  {
    if s == [] || !InClass(s[|s| - 1], k) then 0 else 1 + RunEnd(s[..|s| - 1], k)
  }

  /** A run stops exactly where its class stops: the greedy match is the only one. */
  lemma {:induction false} RunOfPrefix(x: string, y: string, k: CharClass)
    requires AllIn(x, k)
    requires y == [] || !InClass(y[0], k)
    ensures Run(x + y, k) == |x|
  {
    if x == [] {
      assert x + y == y;
    } else {
      assert (x + y)[1..] == x[1..] + y;
      RunOfPrefix(x[1..], y, k);
    }
  }

  lemma {:induction false} RunEndOfSuffix(x: string, y: string, k: CharClass)
    requires AllIn(y, k)
    requires x == [] || !InClass(x[|x| - 1], k)
    ensures RunEnd(x + y, k) == |y|
  {
    if y == [] {
      assert x + y == x;
    } else {
      var s := x + y;
      assert s[..|s| - 1] == x + y[..|y| - 1];
      RunEndOfSuffix(x, y[..|y| - 1], k);
    }
  }

  // ---------------------------------------------------------------------
  // String.prototype.trim

  function Trim(s: string): (t: string)
    ensures |t| <= |s|
    ensures t == [] || (!IsSpace(t[0]) && !IsSpace(t[|t| - 1]))
  {
    var rest := s[Run(s, Space)..];
    rest[..|rest| - RunEnd(rest, Space)]
  }

  /** Trimming a string padded with whitespace on both sides gives back its trimmed core. */
  lemma TrimPadded(u: string, core: string, v: string)
    requires AllIn(u, Space) && AllIn(v, Space)
    requires core == [] || (!IsSpace(core[0]) && !IsSpace(core[|core| - 1]))
    ensures Trim(u + core + v) == core
  {
    var s := u + core + v;
    if core == [] {
      assert s == u + v;
      assert AllIn(s, Space);
      RunOfPrefix(s, [], Space);
      assert s + [] == s;
    } else {
      assert s == u + (core + v);
      RunOfPrefix(u, core + v, Space);
      var rest := s[|u|..];
      assert rest == core + v;
      RunEndOfSuffix(core, v, Space);
      assert rest[..|rest| - |v|] == core;
    }
  }

  /** Every string is its trimmed form padded with whitespace. */
  lemma TrimSplits(s: string) returns (u: string, v: string)
    ensures AllIn(u, Space) && AllIn(v, Space)
    ensures s == u + (Trim(s) + v)
  {
    var n := Run(s, Space);
    var rest := s[n..];
    var m := RunEnd(rest, Space);
    var t := rest[..|rest| - m];
    assert t == Trim(s);
    u, v := s[..n], rest[|rest| - m..];
    SplitAt(s, n);
    SplitAt(rest, |rest| - m);
    assert s == u + rest;
    assert rest == t + v;
  }

  lemma SplitAt<T>(s: seq<T>, i: int)
    requires 0 <= i <= |s|
    ensures s == s[..i] + s[i..]
  {
  }

  lemma AllInAppend(a: string, b: string, k: CharClass)
    requires AllIn(a, k) && AllIn(b, k)
    ensures AllIn(a + b, k)
  {
    forall i | 0 <= i < |a + b| ensures InClass((a + b)[i], k) {
      if i >= |a| {
        assert (a + b)[i] == b[i - |a|];
      }
    }
  }

  lemma Regroup<T>(a: seq<T>, b: seq<T>, c: seq<T>, d: seq<T>, e: seq<T>)
    ensures a + (b + (c + d)) + e == (a + b) + c + (d + e)
  {
  }

  /** Surrounding whitespace never changes the trimmed string. */
  lemma TrimIgnoresPadding(u: string, s: string, v: string)
    requires AllIn(u, Space) && AllIn(v, Space)
    ensures Trim(u + s + v) == Trim(s)
  {
    var u', v' := TrimSplits(s);
    var t := Trim(s);
    Regroup(u, u', t, v', v);
    AllInAppend(u, u', Space);
    AllInAppend(v', v, Space);
    TrimPadded(u + u', t, v' + v);
  }

  // ---------------------------------------------------------------------
  // String.prototype.split with a one-character separator, and its inverse

  function Split(s: string, sep: char): (parts: seq<string>)
    ensures |parts| == multiset(s)[sep] + 1
    ensures forall i :: 0 <= i < |parts| ==> sep !in parts[i]
  {
    if s == [] then [[]]
    else
      assert s == [s[0]] + s[1..];
      var tail := Split(s[1..], sep);
      if s[0] == sep then [[]] + tail
      else [[s[0]] + tail[0]] + tail[1..]
  }

  /** Array.prototype.join with a one-character separator. */
  function Join(parts: seq<string>, sep: char): string
    requires |parts| > 0
  {
    if |parts| == 1 then parts[0] else parts[0] + [sep] + Join(parts[1..], sep)
  }

  lemma JoinOfThree(parts: seq<string>, sep: char)
    requires |parts| == 3
    ensures Join(parts, sep) == parts[0] + [sep] + (parts[1] + [sep] + parts[2])
  {
    var tail := parts[1..];
    assert Join(tail[1..], sep) == parts[2] by {
      assert tail[1..] == [parts[2]];
    }
    assert Join(tail, sep) == parts[1] + [sep] + parts[2];
  }

  /** One step of Split: the first character either ends the first piece or joins it. */
  lemma SplitStep(s: string, sep: char)
    requires s != []
    ensures var tail := Split(s[1..], sep);
      Split(s, sep) == if s[0] == sep then [[]] + tail else [[s[0]] + tail[0]] + tail[1..]
  {
  }

  /** One step of Join on a non-empty remainder. */
  lemma JoinStep(x: string, rest: seq<string>, sep: char)
    requires |rest| > 0
    ensures Join([x] + rest, sep) == x + ([sep] + Join(rest, sep))
  {
    assert ([x] + rest)[1..] == rest;
  }

  /** The inductive step of SplitJoin, given its hypothesis for the rest of the string. */
  lemma SplitJoinStep(s: string, sep: char)
    requires s != [] && Join(Split(s[1..], sep), sep) == s[1..]
    ensures Join(Split(s, sep), sep) == s
  {
    var tail := Split(s[1..], sep);
    SplitStep(s, sep);
    SplitAt(s, 1);
    if s[0] == sep {
      JoinStep([], tail, sep);
    } else if |tail| == 1 {
      assert Join(Split(s, sep), sep) == [s[0]] + tail[0];
    } else {
      JoinGrow(s[0], tail, sep);
    }
  }

  /** Prepending a character to the first piece prepends it to the join. */
  lemma JoinGrow(c: char, parts: seq<string>, sep: char)
    requires |parts| > 1
    ensures Join([[c] + parts[0]] + parts[1..], sep) == [c] + Join(parts, sep)
  {
    SplitAt(parts, 1);
    JoinStep(parts[0], parts[1..], sep);
    JoinStep([c] + parts[0], parts[1..], sep);
  }

  /** Joining the pieces of a split gives back the string. */
  lemma {:induction false} SplitJoin(s: string, sep: char)
    ensures Join(Split(s, sep), sep) == s
  {
    if s != [] {
      SplitJoin(s[1..], sep);
      SplitJoinStep(s, sep);
    }
  }

  lemma {:induction false} SplitOfSeparated(x: string, sep: char, rest: string)
    requires sep !in x
    ensures Split(x + [sep] + rest, sep) == [x] + Split(rest, sep)
  {
    if x != [] {
      assert (x + [sep] + rest)[1..] == x[1..] + [sep] + rest;
      SplitOfSeparated(x[1..], sep, rest);
      assert [x[0]] + x[1..] == x;
    } else {
      assert ([sep] + rest)[1..] == rest;
    }
  }

  lemma {:induction false} SplitOfUnseparated(x: string, sep: char)
    requires sep !in x
    ensures Split(x, sep) == [x]
  {
    if x != [] {
      SplitOfUnseparated(x[1..], sep);
      assert [x[0]] + x[1..] == x;
    }
  }

  /** Splitting a join of separator-free pieces gives back the pieces. */
  lemma {:induction false} JoinSplit(parts: seq<string>, sep: char)
    requires |parts| > 0
    requires forall i :: 0 <= i < |parts| ==> sep !in parts[i]
    ensures Split(Join(parts, sep), sep) == parts
  {
    if |parts| == 1 {
      SplitOfUnseparated(parts[0], sep);
    } else {
      JoinSplit(parts[1..], sep);
      SplitOfSeparated(parts[0], sep, Join(parts[1..], sep));
      assert [parts[0]] + parts[1..] == parts;
    }
  }

  // ---------------------------------------------------------------------
  // Decimal numbers: parseInt(s, 10) and the rendering `${n}`

  function DigitValue(c: char): int {
    c as int - '0' as int
  }

  function DigitChar(d: nat): (c: char)
    requires d < 10
    ensures IsDigit(c) && DigitValue(c) == d
  {
    (d + '0' as int) as char
  }

  /** The value of a string of decimal digits, most significant first. */
  function DigitsValue(d: string): (n: nat)
    requires AllIn(d, Digit)
  {
    if d == [] then 0 else 10 * DigitsValue(d[..|d| - 1]) + DigitValue(d[|d| - 1])
  }

  /** The decimal rendering of a natural number. */
  function NatToString(n: nat): (s: string)
    ensures |s| > 0 && AllIn(s, Digit)
    ensures |s| == 1 || s[0] != '0'
    ensures DigitsValue(s) == n
  {
    if n < 10 then [DigitChar(n)]
    else
      var prefix := NatToString(n / 10);
      var s := prefix + [DigitChar(n % 10)];
      assert s[..|s| - 1] == prefix;
      s
  }

  /** The decimal rendering of an integer, with a leading '-' when it is negative. */
  function IntToString(n: int): (s: string)
    ensures |s| > 0 && (IsDigit(s[0]) || s[0] == '-')
    ensures forall i :: 0 < i < |s| ==> IsDigit(s[i])
  {
    if n < 0 then "-" + NatToString(-n) else NatToString(n)
  }

  /**
   * parseInt(s, 10), with None standing for NaN: leading whitespace is
   * skipped, one sign is accepted, and the longest run of digits after it is
   * read; whatever follows the digits is ignored.
   */
  function ParseInt(s: string): (r: Option<int>)
  {
    ParseSigned(s[Run(s, Space)..])
  }

  /** The optional sign and the digit run after it. */
  function ParseSigned(t: string): (r: Option<int>)
  {
    if |t| > 0 && t[0] == '-' then Negated(ParseDigits(t[1..]))
    else if |t| > 0 && t[0] == '+' then ParseDigits(t[1..])
    else ParseDigits(t)
  }

  /** The value of the leading digit run of `t`, or None when `t` does not start with a digit. */
  function ParseDigits(t: string): (r: Option<int>)
  {
    var n := Run(t, Digit);
    if n == 0 then None else Some(DigitsValue(t[..n]))
  }

  /** The sign parseInt accepts in front of the digits. */
  datatype Sign = Unsigned | Plus | Minus {
    function Text(): string {
      match this
      case Unsigned => ""
      case Plus => "+"
      case Minus => "-"
    }

    function Apply(value: int): int {
      if this == Minus then -value else value
    }
  }

  function Negated(r: Option<int>): Option<int> {
    if r.Some? then Some(-r.value) else None
  }

  /** parseInt skips leading whitespace. */
  lemma ParseIntSkipsSpace(w: string, t: string)
    requires AllIn(w, Space)
    requires t == [] || !IsSpace(t[0])
    ensures ParseInt(w + t) == ParseSigned(t)
  {
    RunOfPrefix(w, t, Space);
    assert (w + t)[|w|..] == t;
  }

  lemma ParseDigitsPrefix(d: string, rest: string)
    requires |d| > 0 && AllIn(d, Digit)
    requires rest == [] || !IsDigit(rest[0])
    ensures ParseDigits(d + rest) == Some(DigitsValue(d))
  {
    RunOfPrefix(d, rest, Digit);
    assert (d + rest)[..|d|] == d;
  }

  /** A sign followed by digits: the sign applies to the digits' value. */
  lemma ParseSignedDigits(sign: Sign, digits: string, value: int)
    requires |digits| > 0 && IsDigit(digits[0])
    requires ParseDigits(digits) == Some(value)
    ensures var t := sign.Text() + digits; !IsSpace(t[0]) && ParseSigned(t) == Some(sign.Apply(value))
  {
    var t := sign.Text() + digits;
    if sign == Unsigned {
      assert t == digits;
    } else {
      assert t[1..] == digits;
    }
  }

  /** A sign followed by no digit is NaN. */
  lemma ParseSignedNaN(sign: Sign, rest: string)
    requires rest == [] || !IsDigit(rest[0])
    requires sign == Unsigned && rest != [] ==> !IsSpace(rest[0]) && rest[0] != '+' && rest[0] != '-'
    ensures var t := sign.Text() + rest; (t == [] || !IsSpace(t[0])) && ParseSigned(t) == None
  {
    var t := sign.Text() + rest;
    if sign == Unsigned {
      assert t == rest;
    } else {
      assert t[1..] == rest;
    }
  }

  /** parseInt reads whitespace, a sign and a digit run, and ignores the rest ("3x" gives 3). */
  lemma ParseIntPrefix(w: string, sign: Sign, d: string, rest: string)
    requires AllIn(w, Space)
    requires |d| > 0 && AllIn(d, Digit)
    requires rest == [] || !IsDigit(rest[0])
    ensures ParseInt(w + (sign.Text() + (d + rest))) == Some(sign.Apply(DigitsValue(d)))
  {
    ParseDigitsPrefix(d, rest);
    ParseSignedDigits(sign, d + rest, DigitsValue(d));
    ParseIntSkipsSpace(w, sign.Text() + (d + rest));
  }

  /** parseInt is NaN when no digit follows the whitespace and the optional sign. */
  lemma ParseIntNaN(w: string, sign: Sign, rest: string)
    requires AllIn(w, Space)
    requires rest == [] || !IsDigit(rest[0])
    requires sign == Unsigned && rest != [] ==> !IsSpace(rest[0]) && rest[0] != '+' && rest[0] != '-'
    ensures ParseInt(w + (sign.Text() + rest)) == None
  {
    ParseSignedNaN(sign, rest);
    ParseIntSkipsSpace(w, sign.Text() + rest);
  }

  /** Rendering an integer and reading it back with parseInt gives the integer. */
  lemma ParseIntOfIntToString(n: int)
    ensures ParseInt(IntToString(n)) == Some(n)
  {
    if n < 0 {
      ParseIntPrefix([], Minus, NatToString(-n), []);
      assert [] + (Minus.Text() + (NatToString(-n) + [])) == IntToString(n);
    } else {
      ParseIntPrefix([], Unsigned, NatToString(n), []);
      assert [] + (Unsigned.Text() + (NatToString(n) + [])) == IntToString(n);
    }
  }

  /** Unsigned digits at the very start: parseInt reads them and ignores the rest. */
  lemma ParseIntLeadingDigits(d: string, rest: string)
    requires |d| > 0 && AllIn(d, Digit)
    requires rest == [] || !IsDigit(rest[0])
    ensures ParseInt(d + rest) == Some(DigitsValue(d))
  {
    ParseIntPrefix([], Unsigned, d, rest);
    assert [] + (Unsigned.Text() + (d + rest)) == d + rest;
  }

  /** A string of digits only is read whole. */
  lemma ParseIntOfDigits(d: string)
    requires |d| > 0 && AllIn(d, Digit)
    ensures ParseInt(d) == Some(DigitsValue(d))
  {
    assert d + [] == d;
    ParseIntLeadingDigits(d, []);
  }

  /** parseInt stops at the first character that is not a digit. */
  lemma ParseIntOf3x()
    ensures ParseInt("3x") == Some(3)
  {
    assert "3" + "x" == "3x";
    ParseIntLeadingDigits("3", "x");
  }

  lemma ParseIntOf16()
    ensures ParseInt("16") == Some(16)
  {
    assert "16" + [] == "16";
    assert DigitsValue("16") == 16 by {
      assert "16"[..1] == "1";
    }
    ParseIntLeadingDigits("16", []);
  }

  // ---------------------------------------------------------------------
  // Arrays

  /** Array.prototype.indexOf: the first index holding `x`, or -1 when none does. */
  function IndexOf<T(==)>(s: seq<T>, x: T): (i: int)
    ensures -1 <= i < |s|
    ensures i == -1 <==> x !in s
    ensures 0 <= i ==> s[i] == x && x !in s[..i]
  {
    if s == [] then -1
    else if s[0] == x then 0
    else
      var j := IndexOf(s[1..], x);
      assert s == [s[0]] + s[1..];
      if j == -1 then -1
      else
        assert s[..j + 1] == [s[0]] + s[1..][..j];
        j + 1
  }

  /** indexOf finds the first occurrence. */
  lemma {:induction false} IndexOfFirst<T>(s: seq<T>, x: T, i: int)
    requires 0 <= i < |s| && s[i] == x
    requires forall k :: 0 <= k < i ==> s[k] != x
    ensures IndexOf(s, x) == i
  {
    if i > 0 {
      IndexOfFirst(s[1..], x, i - 1);
    }
  }

  predicate NoDuplicates<T(==)>(s: seq<T>) {
    forall i, j :: 0 <= i < j < |s| ==> s[i] != s[j]
  }

  /** Array.prototype.splice(index, 1): the element at `index` taken out. */
  function RemoveAt<T>(s: seq<T>, index: int): (r: seq<T>)
    requires 0 <= index < |s|
    ensures |r| == |s| - 1
    ensures forall k :: 0 <= k < index ==> r[k] == s[k]
    ensures forall k :: index <= k < |r| ==> r[k] == s[k + 1]
  {
    s[..index] + s[index + 1..]
  }

  lemma NoDuplicatesRemoveAt<T>(s: seq<T>, index: int)
    requires NoDuplicates(s) && 0 <= index < |s|
    ensures NoDuplicates(RemoveAt(s, index))
  {
    var r := RemoveAt(s, index);
    forall i, j | 0 <= i < j < |r| ensures r[i] != r[j] {
      var i' := if i < index then i else i + 1;
      var j' := if j < index then j else j + 1;
      assert r[i] == s[i'] && r[j] == s[j'];
    }
  }

  lemma NoDuplicatesAfter<T>(s: seq<T>, i: int)
    requires NoDuplicates(s) && 0 <= i < |s|
    ensures s[i] !in s[i + 1..]
  {
    forall k | i + 1 <= k < |s| ensures s[k] != s[i] {
    }
  }

  lemma NoDuplicatesAppend<T>(s: seq<T>, x: T)
    requires NoDuplicates(s) && x !in s
    ensures NoDuplicates(s + [x])
  {
  }
}
