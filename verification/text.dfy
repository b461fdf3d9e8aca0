/**
 * The JavaScript string operations the ticketing code relies on, over `seq<char>`:
 * `trim`, `split`, `join`, `toLowerCase`, `includes`, `startsWith`, `padStart`,
 * `parseInt` and the decimal rendering of a number inside a template string.
 */
module Text {
  import opened Wrappers

  /** The characters `String.prototype.trim` removes (WhiteSpace and LineTerminator). */
  predicate IsSpace(c: char) {
    || c == ' ' || c == '\t' || c == '\n' || c == '\r' || c == '\U{000B}' || c == '\U{000C}'
    || c == '\U{00A0}' || c == '\U{1680}' || ('\U{2000}' <= c <= '\U{200A}')
    || c == '\U{2028}' || c == '\U{2029}' || c == '\U{202F}' || c == '\U{205F}'
    || c == '\U{3000}' || c == '\U{FEFF}'
  }

  predicate AllSpace(s: string) {
    forall k :: 0 <= k < |s| ==> IsSpace(s[k])
  }

  /** Neither end of `s` is a space: `trim` leaves it as it is. */
  predicate Trimmed(s: string) {
    s == [] || (!IsSpace(s[0]) && !IsSpace(s[|s| - 1]))
  }

  function TrimStart(s: string): (r: string)
    ensures |r| <= |s| && r == s[|s| - |r|..]
    ensures AllSpace(s[..|s| - |r|])
    ensures r == [] || !IsSpace(r[0])
  {
    if s != [] && IsSpace(s[0]) then TrimStart(s[1..]) else s
  }

  /** `s.trim()`: leading and trailing spaces removed, one at a time from either end. */
  function Trim(s: string): (r: string)
    ensures |r| <= |s|
    ensures Trimmed(r)
    ensures r == [] <==> AllSpace(s)
    ensures Trimmed(s) ==> r == s
  {
    if s == [] then s
    else if IsSpace(s[0]) then
      var r := Trim(s[1..]);
      assert AllSpace(s) <==> AllSpace(s[1..]) by {
        assert forall k :: 1 <= k < |s| ==> s[k] == s[1..][k - 1];
      }
      r
    else if IsSpace(s[|s| - 1]) then
      var t := s[..|s| - 1];
      var r := Trim(t);
      assert AllSpace(s) <==> AllSpace(t) by {
        assert forall k :: 0 <= k < |t| ==> s[k] == t[k];
      }
      r
    else s
  }

  /** Trimming only removes characters. */
  lemma {:induction false} TrimAvoids(s: string, c: char)
    requires c !in s
    ensures c !in Trim(s)
  {
    if s != [] && IsSpace(s[0]) {
      TrimAvoids(s[1..], c);
    } else if s != [] && IsSpace(s[|s| - 1]) {
      TrimAvoids(s[..|s| - 1], c);
    }
  }

  /** `s.trim()` is empty: the JavaScript test `!s.trim()`. */
  predicate Blank(s: string) {
    Trim(s) == []
  }

  function LowerChar(c: char): (r: char)
    ensures 'A' <= c <= 'Z' ==> 'a' <= r <= 'z'
    ensures !('A' <= c <= 'Z') ==> r == c
  {
    if 'A' <= c <= 'Z' then (c as int - 'A' as int + 'a' as int) as char else c
  }

  function UpperChar(c: char): (r: char)
    ensures 'a' <= c <= 'z' ==> 'A' <= r <= 'Z'
    ensures !('a' <= c <= 'z') ==> r == c
  {
    if 'a' <= c <= 'z' then (c as int - 'a' as int + 'A' as int) as char else c
  }

  /** `s.toLowerCase()` on the ASCII letters. */
  function ToLower(s: string): (r: string)
    ensures |r| == |s|
    ensures forall k :: 0 <= k < |s| ==> r[k] == LowerChar(s[k])
  {
    seq(|s|, k requires 0 <= k < |s| => LowerChar(s[k]))
  }

  /** `s.toUpperCase()` on the ASCII letters. */
  function ToUpper(s: string): (r: string)
    ensures |r| == |s|
    ensures forall k :: 0 <= k < |s| ==> r[k] == UpperChar(s[k])
  {
    seq(|s|, k requires 0 <= k < |s| => UpperChar(s[k]))
  }

  /** Lower-casing forgets the case of the input: upper-casing first changes nothing. */
  lemma LowerOfUpper(s: string)
    ensures ToLower(ToUpper(s)) == ToLower(s)
  {
    forall k | 0 <= k < |s| ensures ToLower(ToUpper(s))[k] == ToLower(s)[k] {
      var c := s[k];
      if 'a' <= c <= 'z' {
        assert LowerChar(UpperChar(c)) as int == c as int;
      } else if 'A' <= c <= 'Z' {
        assert UpperChar(c) == c;
      }
    }
  }

  /** Lower-casing works letter by letter, so it distributes over concatenation. */
  lemma LowerConcat(a: string, b: string)
    ensures ToLower(a + b) == ToLower(a) + ToLower(b)
  {
    forall k | 0 <= k < |a + b| ensures ToLower(a + b)[k] == (ToLower(a) + ToLower(b))[k] {
      if k < |a| { assert (a + b)[k] == a[k]; } else { assert (a + b)[k] == b[k - |a|]; }
    }
  }

  lemma LowerIdempotent(s: string)
    ensures ToLower(ToLower(s)) == ToLower(s)
  {
  }

  predicate OccursAt(s: string, w: string, i: int) {
    0 <= i && i + |w| <= |s| && s[i..i + |w|] == w
  }

  /** `s.includes(w)` */
  function Contains(s: string, w: string): (b: bool)
    ensures b <==> exists i :: OccursAt(s, w, i)
    decreases |s|
  {
    if |w| > |s| then
      assert forall i :: !OccursAt(s, w, i);
      false
    else if s[..|w|] == w then
      assert OccursAt(s, w, 0);
      true
    else
      var b := Contains(s[1..], w);
      assert b ==> exists i :: OccursAt(s, w, i) by {
        if b {
          var i :| OccursAt(s[1..], w, i);
          assert s[1..][i..i + |w|] == s[i + 1..i + 1 + |w|];
          assert OccursAt(s, w, i + 1);
        }
      }
      assert (exists i :: OccursAt(s, w, i)) ==> b by {
        if exists i :: OccursAt(s, w, i) {
          var i :| OccursAt(s, w, i);
          assert i != 0;
          assert s[1..][i - 1..i - 1 + |w|] == s[i..i + |w|];
          assert OccursAt(s[1..], w, i - 1);
        }
      }
      b
  }

  /** `s.startsWith(p)` */
  predicate StartsWith(s: string, p: string) {
    |p| <= |s| && s[..|p|] == p
  }

  /** Replacing a one-character string pattern by the empty string: drops the FIRST `c` only. */
  function RemoveFirst(s: string, c: char): (r: string)
    ensures c !in s ==> r == s
    ensures c in s ==> |r| == |s| - 1
  {
    if s == [] then s
    else if s[0] == c then s[1..]
    else [s[0]] + RemoveFirst(s[1..], c)
  }

  /** Replacing a global one-character pattern by the empty string: drops every `c`. */
  function RemoveAll(s: string, c: char): (r: string)
    ensures c !in r
    ensures forall x :: x != c ==> multiset(r)[x] == multiset(s)[x]
    ensures c !in s ==> r == s
  {
    if s == [] then s
    else
      assert s == [s[0]] + s[1..];
      if s[0] == c then RemoveAll(s[1..], c)
      else [s[0]] + RemoveAll(s[1..], c)
  }

  /** `s.split(d)` with a one-character separator: the pieces between separators, none holding one. */
  function Split(s: string, d: char): (parts: seq<string>)
    ensures |parts| >= 1
    ensures |parts| == 1 <==> d !in s
    ensures forall k :: 0 <= k < |parts| ==> d !in parts[k]
  {
    if s == [] then [""]
    else
      assert s == [s[0]] + s[1..];
      var rest := Split(s[1..], d);
      if s[0] == d then [""] + rest
      else [[s[0]] + rest[0]] + rest[1..]
  }

  /** How many times `c` occurs in `s`. */
  function Occurrences(s: string, c: char): nat {
    if s == [] then 0 else (if s[0] == c then 1 else 0) + Occurrences(s[1..], c)
  }

  /** There is one part more than there are separators. */
  lemma {:induction false} SplitCount(s: string, d: char)
    ensures |Split(s, d)| == Occurrences(s, d) + 1
  {
    if s != [] {
      SplitCount(s[1..], d);
      SplitUnfold(s, d);
    }
  }

  /** `parts.join(d)` */
  function Join(parts: seq<string>, d: char): string {
    if parts == [] then ""
    else if |parts| == 1 then parts[0]
    else parts[0] + [d] + Join(parts[1..], d)
  }

  /** How `Split` extends the parts of a string's tail by one leading character. */
  function SplitStep(c: char, d: char, rest: seq<string>): seq<string>
    requires |rest| >= 1
  {
    if c == d then [""] + rest else [[c] + rest[0]] + rest[1..]
  }

  lemma SplitUnfold(s: string, d: char)
    requires s != []
    ensures |Split(s[1..], d)| >= 1 && Split(s, d) == SplitStep(s[0], d, Split(s[1..], d))
  {
  }

  lemma JoinStep(c: char, d: char, rest: seq<string>)
    requires |rest| >= 1
    ensures Join(SplitStep(c, d, rest), d) == [c] + Join(rest, d)
  {
    var parts := SplitStep(c, d, rest);
    if c == d {
      assert parts[1..] == rest;
    } else if |rest| > 1 {
      assert parts[1..] == rest[1..];
    }
  }

  /** Splitting and joining again gives back the original string. */
  lemma {:induction false} SplitThenJoin(s: string, d: char)
    ensures Join(Split(s, d), d) == s
  {
    if s != [] {
      SplitThenJoin(s[1..], d);
      SplitUnfold(s, d);
      JoinStep(s[0], d, Split(s[1..], d));
      assert s == [s[0]] + s[1..];
    }
  }

  lemma {:induction false} SplitNoSeparator(a: string, d: char)
    requires d !in a
    ensures Split(a, d) == [a]
  {
    if a != [] {
      SplitNoSeparator(a[1..], d);
      assert a == [a[0]] + a[1..];
    }
  }

  lemma {:induction false} SplitAfterPart(a: string, b: string, d: char)
    requires d !in a
    ensures Split(a + [d] + b, d) == [a] + Split(b, d)
  {
    if a == [] {
      assert a + [d] + b == [d] + b;
      assert ([d] + b)[1..] == b;
    } else {
      var s := a + [d] + b;
      SplitAfterPart(a[1..], b, d);
      assert s[1..] == a[1..] + [d] + b;
      SplitUnfold(s, d);
      var rest := Split(s[1..], d);
      assert rest == [a[1..]] + Split(b, d);
      assert s[0] == a[0] && a[0] != d;
      assert Split(s, d) == [[a[0]] + rest[0]] + rest[1..];
      assert [a[0]] + a[1..] == a;
      assert rest[1..] == Split(b, d);
    }
  }

  /** Joining parts that do not contain the separator and splitting again gives the parts back. */
  lemma {:induction false} JoinThenSplit(parts: seq<string>, d: char)
    requires |parts| >= 1
    requires NoPartHas(parts, d)
    ensures Split(Join(parts, d), d) == parts
  {
    if |parts| == 1 {
      SplitNoSeparator(parts[0], d);
    } else {
      JoinThenSplit(parts[1..], d);
      SplitAfterPart(parts[0], Join(parts[1..], d), d);
    }
  }

  /** No part contains the character `c`. */
  predicate NoPartHas(parts: seq<string>, c: char) {
    forall k :: 0 <= k < |parts| ==> c !in parts[k]
  }

  lemma NoPartHasConcat(a: seq<string>, b: seq<string>, c: char)
    requires NoPartHas(a, c) && NoPartHas(b, c)
    ensures NoPartHas(a + b, c)
  {
    forall k | 0 <= k < |a + b| ensures c !in (a + b)[k] {
      if k < |a| { assert (a + b)[k] == a[k]; } else { assert (a + b)[k] == b[k - |a|]; }
    }
  }

  /**
   * Splitting a join whose outer parts hold no separator gives the outer parts back
   * and the middle part's own pieces in between.
   */
  lemma SplitJoinMiddle(front: seq<string>, mid: string, back: seq<string>, d: char)
    requires |front| >= 1 && |back| >= 1
    requires NoPartHas(front, d) && NoPartHas(back, d)
    ensures Split(Join(front + [mid] + back, d), d) == front + Split(mid, d) + back
  {
    var pieces := Split(mid, d);
    JoinThree(front, [mid], back, d);
    JoinThree(front, pieces, back, d);
    SplitThenJoin(mid, d);
    assert Join(front + [mid] + back, d) == Join(front + pieces + back, d);
    NoPartHasConcat(front, pieces, d);
    NoPartHasConcat(front + pieces, back, d);
    JoinThenSplit(front + pieces + back, d);
  }

  lemma JoinThree(a: seq<string>, b: seq<string>, c: seq<string>, d: char)
    requires |a| >= 1 && |b| >= 1 && |c| >= 1
    ensures Join(a + b + c, d) == Join(a, d) + [d] + Join(b, d) + [d] + Join(c, d)
  {
    JoinAppend(a + b, c, d);
    JoinAppend(a, b, d);
  }

  /** Splitting three separator-free parts joined by the separator gives them back. */
  lemma SplitThree(a: string, b: string, c: string, d: char)
    requires d !in a && d !in b && d !in c
    ensures Split(a + [d] + b + [d] + c, d) == [a, b, c]
  {
    assert NoPartHas([a, b, c], d);
    JoinTriple(a, b, c, d);
    JoinThenSplit([a, b, c], d);
  }

  lemma JoinTriple(a: string, b: string, c: string, d: char)
    ensures Join([a, b, c], d) == a + [d] + b + [d] + c
  {
    var parts := [a, b, c];
    assert parts[1..] == [b, c] && [b, c][1..] == [c];
    assert Join([b, c], d) == b + [d] + c;
    assert Join(parts, d) == a + [d] + (b + [d] + c);
  }

  /** A joined string holds no character that none of its parts holds, other than the separator. */
  lemma {:induction false} JoinAvoids(parts: seq<string>, d: char, c: char)
    requires c != d
    requires forall k :: 0 <= k < |parts| ==> c !in parts[k]
    ensures c !in Join(parts, d)
  {
    if |parts| > 1 {
      JoinAvoids(parts[1..], d, c);
    }
  }

  /** Joining two non-empty lists of parts puts one separator between their joins. */
  lemma {:induction false} JoinAppend(a: seq<string>, b: seq<string>, d: char)
    requires |a| >= 1 && |b| >= 1
    ensures Join(a + b, d) == Join(a, d) + [d] + Join(b, d)
    decreases |a|
  {
    if |a| == 1 {
      assert (a + b)[1..] == b;
    } else {
      JoinAppend(a[1..], b, d);
      assert (a + b)[1..] == a[1..] + b;
    }
  }

  /**
   * A join of trimmed parts is trimmed when the separator is not a space, and also when
   * it is one but no part is empty.
   */
  lemma {:induction false} JoinTrimmed(parts: seq<string>, d: char)
    requires forall k :: 0 <= k < |parts| ==> Trimmed(parts[k])
    requires IsSpace(d) ==> forall k :: 0 <= k < |parts| ==> parts[k] != []
    ensures Trimmed(Join(parts, d))
    ensures IsSpace(d) && |parts| >= 1 ==> Join(parts, d) != []
  {
    if |parts| > 1 {
      var rest := parts[1..];
      JoinTrimmed(rest, d);
      var j := Join(rest, d);
      var whole := parts[0] + [d] + j;
      assert Join(parts, d) == whole;
      assert whole[0] == (if parts[0] == [] then d else parts[0][0]);
      assert whole[|whole| - 1] == (if j == [] then d else j[|j| - 1]);
    }
  }

  predicate IsDigit(c: char) {
    '0' <= c <= '9'
  }

  function DigitValue(c: char): (v: nat)
    requires IsDigit(c)
    ensures v < 10
  {
    c as int - '0' as int
  }

  /** The longest prefix of `s` made of decimal digits. */
  function DigitPrefix(s: string): (r: string)
    ensures |r| <= |s| && r == s[..|r|]
    ensures forall k :: 0 <= k < |r| ==> IsDigit(r[k])
    ensures |r| < |s| ==> !IsDigit(s[|r|])
  {
    if s != [] && IsDigit(s[0]) then [s[0]] + DigitPrefix(s[1..]) else []
  }

  function DecimalValue(digits: string): nat
    requires forall k :: 0 <= k < |digits| ==> IsDigit(digits[k])
  {
    if digits == [] then 0
    else DecimalValue(digits[..|digits| - 1]) * 10 + DigitValue(digits[|digits| - 1])
  }

  predicate IsHexDigit(c: char) {
    IsDigit(c) || 'a' <= c <= 'f' || 'A' <= c <= 'F'
  }

  function HexDigitValue(c: char): (v: nat)
    requires IsHexDigit(c)
    ensures v < 16
  {
    if IsDigit(c) then DigitValue(c)
    else if 'a' <= c <= 'f' then c as int - 'a' as int + 10
    else c as int - 'A' as int + 10
  }

  function HexPrefix(s: string): (r: string)
    ensures |r| <= |s| && r == s[..|r|]
    ensures forall k :: 0 <= k < |r| ==> IsHexDigit(r[k])
  {
    if s != [] && IsHexDigit(s[0]) then [s[0]] + HexPrefix(s[1..]) else []
  }

  function HexValue(digits: string): nat
    requires forall k :: 0 <= k < |digits| ==> IsHexDigit(digits[k])
  {
    if digits == [] then 0
    else HexValue(digits[..|digits| - 1]) * 16 + HexDigitValue(digits[|digits| - 1])
  }

  /** Leading white space and an optional sign, as `parseInt` reads them. */
  /** After leading white space: whether a minus sign follows, and the text after the sign. */
  function SignAndRest(s: string): (bool, string) {
    var t := TrimStart(s);
    if t != [] && t[0] == '-' then (true, t[1..])
    else if t != [] && t[0] == '+' then (false, t[1..])
    else (false, t)
  }

  function Signed(negative: bool, v: nat): int {
    if negative then -(v as int) else v
  }

  /**
   * `parseInt(s, 10)`: the value of the leading decimal digits after optional white
   * space and sign; `None` stands for `NaN` (no digit where one is expected).
   */
  function ParseIntDecimal(s: string): (r: Option<int>)
    ensures r.None? <==> DigitPrefix(SignAndRest(s).1) == []
  {
    var (negative, rest) := SignAndRest(s);
    var digits := DigitPrefix(rest);
    if digits == [] then None else Some(Signed(negative, DecimalValue(digits)))
  }

  /**
   * `parseInt(s)` without a radix: as `ParseIntDecimal`, except that a `0x` / `0X`
   * prefix after the sign switches to hexadecimal.
   */
  function ParseInt(s: string): (r: Option<int>)
    ensures !StartsWith(SignAndRest(s).1, "0x") && !StartsWith(SignAndRest(s).1, "0X")
            ==> r == ParseIntDecimal(s)
  {
    var (negative, rest) := SignAndRest(s);
    if StartsWith(rest, "0x") || StartsWith(rest, "0X") then
      var digits := HexPrefix(rest[2..]);
      if digits == [] then None else Some(Signed(negative, HexValue(digits)))
    else
      ParseIntDecimal(s)
  }

  function DigitChar(d: nat): (c: char)
    requires d < 10
    ensures IsDigit(c) && DigitValue(c) == d
  {
    ('0' as int + d) as char
  }

  /** The decimal rendering of a natural number, as a template string prints it. */
  function NatToString(n: nat): (r: string)
    ensures r != []
    ensures forall k :: 0 <= k < |r| ==> IsDigit(r[k])
    ensures DecimalValue(r) == n
  {
    if n < 10 then [DigitChar(n)]
    else
      var r := NatToString(n / 10) + [DigitChar(n % 10)];
      assert r[..|r| - 1] == NatToString(n / 10);
      r
  }

  lemma {:induction false} DigitPrefixOfDigits(s: string)
    requires forall k :: 0 <= k < |s| ==> IsDigit(s[k])
    ensures DigitPrefix(s) == s
  {
    if s != [] {
      DigitPrefixOfDigits(s[1..]);
      assert s == [s[0]] + s[1..];
    }
  }

  lemma NotHexPrefix(s: string)
    requires s != [] && forall k :: 0 <= k < |s| ==> IsDigit(s[k])
    ensures !StartsWith(s, "0x") && !StartsWith(s, "0X")
  {
    if |s| >= 2 {
      assert IsDigit(s[1]);
      assert s[..2][1] == s[1];
      assert "0x"[1] == 'x' && "0X"[1] == 'X';
    }
  }

  /** `parseInt` reads a string of decimal digits as its decimal value. */
  lemma ParseIntOfDigits(s: string)
    requires s != [] && forall k :: 0 <= k < |s| ==> IsDigit(s[k])
    ensures ParseInt(s) == Some(DecimalValue(s))
  {
    assert !IsSpace(s[0]) && s[0] != '-' && s[0] != '+' by { assert IsDigit(s[0]); }
    assert TrimStart(s) == s;
    assert SignAndRest(s) == (false, s);
    NotHexPrefix(s);
    DigitPrefixOfDigits(s);
  }

  /** `parseInt` reads back what `NatToString` prints. */
  lemma ParseIntOfNatToString(n: nat)
    ensures ParseInt(NatToString(n)) == Some(n)
  {
    ParseIntOfDigits(NatToString(n));
  }

  /** A printed number holds nothing but digits. */
  lemma NatToStringAvoids(n: nat, c: char)
    requires !IsDigit(c)
    ensures c !in NatToString(n)
  {
    var r := NatToString(n);
    forall k | 0 <= k < |r| ensures r[k] != c { assert IsDigit(r[k]); }
  }

  /** `s.padStart(2, '0')` */
  function PadTwo(s: string): (r: string)
    ensures |s| >= 2 ==> r == s
    ensures |s| < 2 ==> |r| == 2 && r[2 - |s|..] == s && AllZeros(r[..2 - |s|])
  {
    if |s| == 0 then "00" else if |s| == 1 then "0" + s else s
  }

  predicate AllZeros(s: string) {
    forall k :: 0 <= k < |s| ==> s[k] == '0'
  }

  // ---------------------------------------------------------------- string order

  /**
   * `a < b` on strings: at the first position where they differ the smaller character
   * wins, and a proper prefix comes before the longer string.
   */
  predicate Below(a: string, b: string) {
    if b == [] then false
    else if a == [] then true
    else if a[0] != b[0] then a[0] < b[0]
    else Below(a[1..], b[1..])
  }

  /** No string is below itself. */
  lemma {:induction false} BelowIrreflexive(a: string)
    ensures !Below(a, a)
  {
    if a != [] {
      BelowIrreflexive(a[1..]);
    }
  }

  /** Of two different strings exactly one is below the other. */
  lemma {:induction false} BelowTotal(a: string, b: string)
    requires a != b
    ensures Below(a, b) != Below(b, a)
  {
    if a != [] && b != [] && a[0] == b[0] {
      assert a == [a[0]] + a[1..] && b == [b[0]] + b[1..];
      BelowTotal(a[1..], b[1..]);
    }
  }

  /** The order is transitive. */
  lemma {:induction false} BelowTransitive(a: string, b: string, c: string)
    requires Below(a, b) && Below(b, c)
    ensures Below(a, c)
  {
    if a != [] && a[0] == b[0] && b[0] == c[0] {
      BelowTransitive(a[1..], b[1..], c[1..]);
    }
  }
}
