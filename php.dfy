/**
 * The small part of PHP's value model and string library that the table
 * mapper relies on: dynamically typed values, `isset`/`empty`, `implode`,
 * `trim` with a character list, `strtolower` and the decimal rendering of
 * integers used by string interpolation.
 */
module Php {

  /** A PHP scalar as it can sit in a column, a bound parameter or an argument. */
  datatype Value = Null | Bool(b: bool) | Int(i: int) | Str(s: string)

  /** `isset($x)`: a value is set exactly when it is not null. */
  predicate IsSet(v: Value): (r: bool)
    ensures r <==> v != Null
  {
    !v.Null?
  }

  /** `empty($s)` on a string: the empty string and "0" are empty. */
  predicate EmptyString(s: string): (r: bool)
    ensures r ==> |s| <= 1
    ensures s == [] ==> r
  {
    s == "" || s == "0"
  }

  /**
   * `empty($x)` on a scalar: null, false, 0, "" and "0" are empty, nothing else
   * is; a value that is not empty is therefore `isset`.
   */
  predicate Empty(v: Value): (r: bool)
    ensures r <==> v in [Null, Bool(false), Int(0), Str(""), Str("0")]
    ensures !r ==> IsSet(v)
  {
    match v
    case Null => true
    case Bool(b) => !b
    case Int(i) => i == 0
    case Str(s) => EmptyString(s)
  }

  /** `implode($sep, $parts)`: the parts with `sep` between neighbours. */
  function Join(sep: string, parts: seq<string>): (r: string)
    ensures parts == [] ==> r == ""
    ensures |parts| == 1 ==> r == parts[0]
    ensures parts != [] ==> parts[0] <= r
  {
    if |parts| == 0 then ""
    else if |parts| == 1 then parts[0]
    else parts[0] + sep + Join(sep, parts[1..])
  }

  /** Appending one part to a non-empty list appends the separator and the part. */
  lemma {:induction false} JoinSnoc(sep: string, parts: seq<string>, p: string)
    ensures Join(sep, parts + [p]) == if parts == [] then p else Join(sep, parts) + sep + p
    decreases |parts|
  {
    if |parts| <= 1 {
    } else {
      assert (parts + [p])[1..] == parts[1..] + [p];
      JoinSnoc(sep, parts[1..], p);
    }
  }

  /** A non-empty join ends with its last part. */
  lemma JoinEndsWithLast(sep: string, parts: seq<string>)
    requires parts != []
    ensures var r := Join(sep, parts); var last := parts[|parts| - 1];
      |last| <= |r| && r[|r| - |last|..] == last
  {
    var init := parts[..|parts| - 1];
    assert parts == init + [parts[|parts| - 1]];
    JoinSnoc(sep, init, parts[|parts| - 1]);
  }

  /** `explode($sep, $s)` for a one-character separator: the pieces between separators. */
  function Explode(sep: char, s: string): (r: seq<string>)
    ensures r != []
    ensures sep !in s ==> r == [s]
  {
    if s == [] then [""]
    else
      var rest := Explode(sep, s[1..]);
      assert [s[0]] + s[1..] == s;
      assert sep !in s ==> sep !in s[1..];
      if s[0] == sep then [""] + rest
      else [[s[0]] + rest[0]] + rest[1..]
  }

  /** A separator-free piece followed by the separator splits off as the first piece. */
  lemma {:induction false} ExplodeCons(sep: char, p: string, q: string)
    requires sep !in p
    ensures Explode(sep, p + [sep] + q) == [p] + Explode(sep, q)
  {
    if p != [] {
      assert (p + [sep] + q)[1..] == p[1..] + [sep] + q;
      assert (p + [sep] + q)[0] == p[0] != sep;
      ExplodeCons(sep, p[1..], q);
      assert [p[0]] + p[1..] == p;
    } else {
      assert p + [sep] + q == [sep] + q;
    }
  }

  /** Exploding a join of separator-free parts gives the parts back. */
  lemma {:induction false} ExplodeJoin(sep: char, parts: seq<string>)
    requires parts != []
    requires forall i :: 0 <= i < |parts| ==> sep !in parts[i]
    ensures Explode(sep, Join([sep], parts)) == parts
    decreases |parts|
  {
    if |parts| > 1 {
      ExplodeCons(sep, parts[0], Join([sep], parts[1..]));
      ExplodeJoin(sep, parts[1..]);
    }
  }

  /** `ltrim($s, $chars)`: drops the longest prefix made of characters in `chars`. */
  function TrimLeft(s: string, chars: seq<char>): (r: string)
    ensures |r| <= |s| && r == s[|s| - |r|..]
    ensures forall i :: 0 <= i < |s| - |r| ==> s[i] in chars
    ensures r == [] || r[0] !in chars
  {
    if |s| > 0 && s[0] in chars then TrimLeft(s[1..], chars) else s
  }

  /** `rtrim($s, $chars)`: drops the longest suffix made of characters in `chars`. */
  function TrimRight(s: string, chars: seq<char>): (r: string)
    ensures |r| <= |s| && r == s[..|r|]
    ensures forall i :: |r| <= i < |s| ==> s[i] in chars
    ensures r == [] || r[|r| - 1] !in chars
  {
    if |s| > 0 && s[|s| - 1] in chars then TrimRight(s[..|s| - 1], chars) else s
  }

  /**
   * `trim($s, $chars)`: strips characters of the list from both ends. The list is
   * a set of characters, not a word: `trim(s, "OR ")` strips any mix of 'O', 'R'
   * and ' '. (A list holding ".." ranges is not modelled.)
   */
  function Trim(s: string, chars: seq<char>): (r: string)
    ensures r == [] || (r[0] !in chars && r[|r| - 1] !in chars)
    ensures exists i, j ::
      (0 <= i <= j <= |s| && r == s[i..j] &&
       (forall k :: 0 <= k < i ==> s[k] in chars) &&
       (forall k :: j <= k < |s| ==> s[k] in chars))
  {
    var right := TrimRight(s, chars);
    var r := TrimLeft(right, chars);
    var i, j := |right| - |r|, |right|;
    assert r == s[i..j];
    assert forall k :: 0 <= k < i ==> s[k] == right[k];
    r
  }

  /** Stripping a suffix of list characters leaves a part that does not end in one. */
  lemma TrimRightSuffix(p: string, x: string, chars: seq<char>)
    requires forall i :: 0 <= i < |x| ==> x[i] in chars
    requires p == [] || p[|p| - 1] !in chars
    ensures TrimRight(p + x, chars) == p
  {
    var s := p + x;
    var r := TrimRight(s, chars);
    assert forall k :: |p| <= k < |s| ==> s[k] == x[k - |p|];
    assert forall k :: 0 <= k < |p| ==> s[k] == p[k];
  }

  /** A string that does not start with a list character has no prefix to strip. */
  lemma TrimLeftNoop(s: string, chars: seq<char>)
    requires s == [] || s[0] !in chars
    ensures TrimLeft(s, chars) == s
  {
  }

  /** ASCII upper case letters map to lower case; every other character is kept. */
  function LowerChar(c: char): (r: char)
    ensures !('A' <= r <= 'Z')
    ensures 'A' <= c <= 'Z' ==> 'a' <= r <= 'z' && r as int - 'a' as int == c as int - 'A' as int
    ensures !('A' <= c <= 'Z') ==> r == c
  {
    if 'A' <= c <= 'Z' then (c as int - 'A' as int + 'a' as int) as char else c
  }

  /** `strtolower($s)` in its locale-independent (ASCII) form. */
  function ToLower(s: string): (r: string)
    ensures |r| == |s|
    ensures forall i :: 0 <= i < |r| ==> !('A' <= r[i] <= 'Z')
    ensures forall i :: 0 <= i < |s| && 'A' <= s[i] <= 'Z' ==>
      'a' <= r[i] <= 'z' && r[i] as int - 'a' as int == s[i] as int - 'A' as int
    ensures forall i :: 0 <= i < |s| && !('A' <= s[i] <= 'Z') ==> r[i] == s[i]
  {
    seq(|s|, i requires 0 <= i < |s| => LowerChar(s[i]))
  }

  /** The decimal digit of `d`. */
  function DigitChar(d: nat): (c: char)
    requires d < 10
    ensures '0' <= c <= '9'
    ensures c as int - '0' as int == d
  {
    "0123456789"[d]
  }

  /** Decimal rendering of a natural number, without leading zeros. */
  function NatToString(n: nat): (r: string)
    ensures r != []
    ensures forall i :: 0 <= i < |r| ==> '0' <= r[i] <= '9'
    decreases n
  {
    if n < 10 then [DigitChar(n)] else NatToString(n / 10) + [DigitChar(n % 10)]
  }

  /** A positive number's rendering does not start with a zero. */
  lemma {:induction false} NatToStringCanonical(n: nat)
    ensures n > 0 ==> NatToString(n)[0] != '0'
    decreases n
  {
    if n >= 10 {
      NatToStringCanonical(n / 10);
    }
  }

  /** `"$i"`: how string interpolation renders a PHP integer. */
  function IntToString(i: int): (r: string)
    ensures r != []
  {
    if i < 0 then "-" + NatToString(-i) else NatToString(i)
  }

  /** The value of a string of decimal digits (the inverse of NatToString). */
  function ParseNat(s: string): nat
    requires forall i :: 0 <= i < |s| ==> '0' <= s[i] <= '9'
  {
    if s == [] then 0
    else ParseNat(s[..|s| - 1]) * 10 + (s[|s| - 1] as int - '0' as int)
  }

  /** The value of an optionally signed decimal string (the inverse of IntToString). */
  function ParseInt(s: string): int
    requires s != []
    requires forall i :: 0 < i < |s| ==> '0' <= s[i] <= '9'
    requires s[0] == '-' || '0' <= s[0] <= '9'
  {
    if s[0] == '-' then 0 - ParseNat(s[1..]) else ParseNat(s) as int
  }

  lemma {:induction false} NatToStringRoundTrip(n: nat)
    ensures ParseNat(NatToString(n)) == n
    decreases n
  {
    var s := NatToString(n);
    if n >= 10 {
      NatToStringRoundTrip(n / 10);
      assert s[..|s| - 1] == NatToString(n / 10);
    }
  }

  /** The digits of a non-zero integer's rendering do not start with a zero. */
  lemma IntToStringCanonical(i: int)
    ensures var s := IntToString(i);
      (i > 0 ==> s[0] != '0') && (i < 0 ==> |s| > 1 && s[1] != '0')
  {
    if i < 0 {
      NatToStringCanonical(-i);
      assert IntToString(i)[1..] == NatToString(-i);
    } else {
      NatToStringCanonical(i);
    }
  }

  /** Distinct integers render as distinct strings: parsing undoes rendering. */
  lemma IntToStringRoundTrip(i: int)
    ensures var s := IntToString(i);
      (s[0] == '-' <==> i < 0) &&
      (forall k :: 0 < k < |s| ==> '0' <= s[k] <= '9') &&
      ParseInt(s) == i
  {
    var s := IntToString(i);
    if i < 0 {
      NatToStringRoundTrip(-i);
      assert s[1..] == NatToString(-i);
    } else {
      NatToStringRoundTrip(i);
    }
  }
}
