/** Character classes and string helpers that the scheduler takes from Python's
    `str` and `re` libraries, restricted to ASCII text: `str.strip`, `str.upper`,
    `str.lower`, the `in` substring test, `re.split('[,;]', ...)`, the `\d` and `\s`
    classes, `int(...)` on a run of digits, `f"{n}"` on an integer and the
    ordering `sorted` uses on strings. */
module Text {

  /** Python's `\s` and `str.isspace` on the ASCII range: space, tab, line feed,
      vertical tab, form feed, carriage return and the four separators 0x1C-0x1F. */
  predicate IsSpace(c: char) {
    c == ' ' || c == '\t' || c == '\n' || c == '\r' || c == '\U{B}' || c == '\U{C}'
    || ('\U{1C}' <= c <= '\U{1F}')
  }

  predicate IsDigit(c: char) { '0' <= c <= '9' }

  function UpperChar(c: char): char {
    if 'a' <= c <= 'z' then (c as int - 32) as char else c
  }

  function LowerChar(c: char): char {
    if 'A' <= c <= 'Z' then (c as int + 32) as char else c
  }

  /** `str.upper()` on ASCII text. */
  function ToUpper(s: string): (r: string)
    ensures |r| == |s|
    ensures forall i :: 0 <= i < |s| ==> r[i] == UpperChar(s[i])
  {
    seq(|s|, i requires 0 <= i < |s| => UpperChar(s[i]))
  }

  /** `str.lower()` on ASCII text. */
  function ToLower(s: string): (r: string)
    ensures |r| == |s|
    ensures forall i :: 0 <= i < |s| ==> r[i] == LowerChar(s[i])
  {
    seq(|s|, i requires 0 <= i < |s| => LowerChar(s[i]))
  }

  /** Index of the first non-space character at or after `i`. */
  function SpacesEnd(s: string, i: nat): (j: nat)
    requires i <= |s|
    ensures i <= j <= |s|
    ensures forall k :: i <= k < j ==> IsSpace(s[k])
    ensures j < |s| ==> !IsSpace(s[j])
    decreases |s| - i
  {
    if i < |s| && IsSpace(s[i]) then SpacesEnd(s, i + 1) else i
  }

  /** Index of the first non-digit character at or after `i`. */
  function DigitsEnd(s: string, i: nat): (j: nat)
    requires i <= |s|
    ensures i <= j <= |s|
    ensures forall k :: i <= k < j ==> IsDigit(s[k])
    ensures j < |s| ==> !IsDigit(s[j])
    decreases |s| - i
  {
    if i < |s| && IsDigit(s[i]) then DigitsEnd(s, i + 1) else i
  }

  /** Start of the run of spaces that ends `s`, not before `lo`. */
  function TrailingSpacesStart(s: string, lo: nat): (j: nat)
    requires lo <= |s|
    ensures lo <= j <= |s|
    ensures forall k :: j <= k < |s| ==> IsSpace(s[k])
    ensures j > lo ==> !IsSpace(s[j - 1])
    decreases |s| - lo
  {
    if |s| == lo || !IsSpace(s[|s| - 1]) then |s|
    else TrailingSpacesStart(s[..|s| - 1], lo)
  }

  /** `str.strip()`: the slice of `s` left when leading and trailing whitespace
      is removed. */
  function Strip(s: string): (r: string)
    ensures r != [] ==> !IsSpace(r[0]) && !IsSpace(r[|r| - 1])
  {
    var i := SpacesEnd(s, 0);
    var j := TrailingSpacesStart(s, i);
    s[i..j]
  }

  /** `Strip` removes exactly the whitespace at either end: the result is a
      slice of `s`, and only spaces are cut off before and after it. */
  lemma StripTrims(s: string)
    ensures exists i, j ::
              && 0 <= i <= j <= |s| && Strip(s) == s[i..j]
              && (forall k :: 0 <= k < i ==> IsSpace(s[k]))
              && (forall k :: j <= k < |s| ==> IsSpace(s[k]))
  {
    var i := SpacesEnd(s, 0);
    var j := TrailingSpacesStart(s, i);
    assert Strip(s) == s[i..j];
  }

  /** `k in s` for two strings: `k` occurs as a contiguous piece of `s`. */
  predicate Contains(s: string, k: string) {
    exists i :: 0 <= i <= |s| - |k| && k <= s[i..]
  }

  /** A piece whose first character is missing from `s` does not occur in it. */
  lemma NotContains(s: string, k: string)
    requires k != [] && k[0] !in s
    ensures !Contains(s, k)
  {
    forall i | 0 <= i <= |s| - |k| ensures !(k <= s[i..]) {
      assert s[i] in s;
    }
  }

  predicate IsSeparator(c: char) { c == ',' || c == ';' }

  /** Index of the first separator at or after `i`, or `|s|`. */
  function SeparatorAt(s: string, i: nat): (j: nat)
    requires i <= |s|
    ensures i <= j <= |s|
    ensures forall k :: i <= k < j ==> !IsSeparator(s[k])
    ensures j < |s| ==> IsSeparator(s[j])
    decreases |s| - i
  {
    if i < |s| && !IsSeparator(s[i]) then SeparatorAt(s, i + 1) else i
  }

  /** `re.split('[,;]', s)`: the pieces between separators, one more than there
      are separators, none of them holding a separator. */
  function Split(s: string): (parts: seq<string>)
    ensures |parts| >= 1
    ensures forall p :: p in parts ==> forall c :: c in p ==> !IsSeparator(c)
    decreases |s|
  {
    var k := SeparatorAt(s, 0);
    if k == |s| then [s] else [s[..k]] + Split(s[k + 1..])
  }

  /** The separators of `s`, in order. */
  function Separators(s: string): (r: string)
    ensures forall c :: c in r ==> IsSeparator(c)
  {
    if s == [] then []
    else if IsSeparator(s[0]) then [s[0]] + Separators(s[1..])
    else Separators(s[1..])
  }

  /** Puts the pieces back together, each separator between its two pieces. */
  function Join(parts: seq<string>, seps: string): string
    requires |parts| == |seps| + 1
  {
    if seps == [] then parts[0]
    else parts[0] + [seps[0]] + Join(parts[1..], seps[1..])
  }

  lemma {:induction false} SeparatorsOfPlainPrefix(s: string, k: nat)
    requires k <= |s|
    requires forall i :: 0 <= i < k ==> !IsSeparator(s[i])
    ensures Separators(s) == Separators(s[k..])
    decreases k
  {
    if k > 0 {
      assert s[1..][k - 1..] == s[k..];
      SeparatorsOfPlainPrefix(s[1..], k - 1);
    }
  }

  /** Splitting loses nothing: the pieces and the separators rebuild the text. */
  lemma {:induction false} SplitJoin(s: string)
    ensures |Split(s)| == |Separators(s)| + 1
    ensures Join(Split(s), Separators(s)) == s
    decreases |s|
  {
    var k := SeparatorAt(s, 0);
    SeparatorsOfPlainPrefix(s, k);
    if k == |s| {
      assert s[k..] == [];
    } else {
      assert Separators(s[k..]) == [s[k]] + Separators(s[k + 1..]);
      SplitJoin(s[k + 1..]);
      assert s == s[..k] + [s[k]] + s[k + 1..];
    }
  }

  function DigitValue(c: char): nat
    requires IsDigit(c)
  {
    c as int - '0' as int
  }

  function DigitChar(n: nat): (c: char)
    requires n < 10
    ensures IsDigit(c) && DigitValue(c) == n
  {
    ('0' as int + n) as char
  }

  predicate AllDigits(s: string) {
    forall i :: 0 <= i < |s| ==> IsDigit(s[i])
  }

  /** `int(s)` for a run of ASCII digits (leading zeros allowed). */
  function DigitsValue(s: string): nat
    requires AllDigits(s)
  {
    if s == [] then 0 else DigitsValue(s[..|s| - 1]) * 10 + DigitValue(s[|s| - 1])
  }

  /** The decimal digits of `n`, without leading zeros. */
  function NatToString(n: nat): (r: string)
    ensures r != [] && AllDigits(r)
    ensures r[0] == '0' <==> n == 0
    ensures n == 0 ==> r == "0"
  {
    if n < 10 then [DigitChar(n)] else NatToString(n / 10) + [DigitChar(n % 10)]
  }

  /** `int(...)` undoes `str(...)` on natural numbers. */
  lemma {:induction false} DigitsRoundTrip(n: nat)
    ensures DigitsValue(NatToString(n)) == n
  {
    if n >= 10 {
      DigitsRoundTrip(n / 10);
      var s := NatToString(n);
      assert s[..|s| - 1] == NatToString(n / 10);
    }
  }

  /** `f"{i}"` for a Python `int`. */
  function IntToString(i: int): string {
    if i < 0 then "-" + NatToString(-i) else NatToString(i)
  }

  /** The order `sorted` uses on `str`: code point by code point, a proper
      prefix first. */
  predicate Less(a: string, b: string) {
    if a == [] then b != []
    else if b == [] then false
    else if a[0] != b[0] then a[0] < b[0]
    else Less(a[1..], b[1..])
  }

  lemma {:induction false} LessIrreflexive(a: string)
    ensures !Less(a, a)
  {
    if a != [] { LessIrreflexive(a[1..]); }
  }

  lemma {:induction false} LessTransitive(a: string, b: string, c: string)
    requires Less(a, b) && Less(b, c)
    ensures Less(a, c)
  {
    if a != [] && b != [] && c != [] && a[0] == b[0] && b[0] == c[0] {
      LessTransitive(a[1..], b[1..], c[1..]);
    }
  }

  lemma {:induction false} LessTotal(a: string, b: string)
    ensures a == b || Less(a, b) || Less(b, a)
  {
    if a != [] && b != [] && a[0] == b[0] {
      LessTotal(a[1..], b[1..]);
      if a[1..] == b[1..] {
        assert a == [a[0]] + a[1..] && b == [b[0]] + b[1..];
      }
    }
  }

  lemma {:induction false} LessAsymmetric(a: string, b: string)
    requires Less(a, b)
    ensures !Less(b, a)
  {
    if a != [] && b != [] && a[0] == b[0] {
      LessAsymmetric(a[1..], b[1..]);
    }
  }
}
