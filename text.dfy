/** Text helpers standing for the pieces of Rust's standard library the
    generator uses on strings: `join`, `ends_with`, `char::is_ascii_digit`
    and `to_string` on an integer tag. */
module Text {

  /** `parts` with `sep` between neighbours, as `[String]::join`. */
  function Join(parts: seq<string>, sep: string): string
    decreases |parts|
  {
    if |parts| == 0 then ""
    else if |parts| == 1 then parts[0]
    else parts[0] + sep + Join(parts[1..], sep)
  }

  /** `str::ends_with`. */
  predicate EndsWith(s: string, suffix: string)
  {
    |suffix| <= |s| && s[|s| - |suffix|..] == suffix
  }

  /** `char::is_ascii_digit`. */
  predicate IsAsciiDigit(c: char)
  {
    '0' <= c <= '9'
  }

  ghost predicate OccursAt(sub: string, s: string, i: nat)
  {
    i + |sub| <= |s| && s[i..i + |sub|] == sub
  }

  /** `sub` appears somewhere inside `s`. */
  ghost predicate IsInfix(sub: string, s: string)
  {
    exists i: nat :: OccursAt(sub, s, i)
  }

  /** A string ends with a suffix exactly when it is something followed by it. */
  lemma EndsWithIff(s: string, suffix: string)
    ensures EndsWith(s, suffix) <==> exists p: string :: s == p + suffix
  {
    if EndsWith(s, suffix) {
      var p := s[..|s| - |suffix|];
      assert s == p + suffix;
    }
    if exists p: string :: s == p + suffix {
      var p: string :| s == p + suffix;
      assert s[|s| - |suffix|..] == suffix;
    }
  }

  lemma InfixOfConcat(p: string, x: string, q: string)
    ensures IsInfix(x, p + x + q)
  {
    assert OccursAt(x, p + x + q, |p|);
  }

  lemma InfixGrowsLeft(x: string, p: string, s: string)
    requires IsInfix(x, s)
    ensures IsInfix(x, p + s)
  {
    var i: nat :| OccursAt(x, s, i);
    assert (p + s)[|p| + i..|p| + i + |x|] == s[i..i + |x|];
    assert OccursAt(x, p + s, |p| + i);
  }

  lemma InfixTransitive(a: string, b: string, c: string)
    requires IsInfix(a, b) && IsInfix(b, c)
    ensures IsInfix(a, c)
  {
    var i: nat :| OccursAt(a, b, i);
    var j: nat :| OccursAt(b, c, j);
    forall k | 0 <= k < |a|
      ensures c[j + i + k] == a[k]
    {
      assert a[k] == b[i..i + |a|][k] == b[i + k];
      assert b[i + k] == c[j..j + |b|][i + k] == c[j + i + k];
    }
    assert c[j + i..j + i + |a|] == a;
    assert OccursAt(a, c, j + i);
  }

  /** Every joined part is still present, verbatim, in the joined text. */
  lemma {:induction false} JoinContainsEachPart(parts: seq<string>, sep: string, k: nat)
    requires k < |parts|
    ensures IsInfix(parts[k], Join(parts, sep))
    decreases |parts|
  {
    if |parts| == 1 {
      InfixOfConcat([], parts[0], []);
      assert [] + parts[0] + [] == Join(parts, sep);
    } else if k == 0 {
      InfixOfConcat([], parts[0], sep + Join(parts[1..], sep));
      assert [] + parts[0] + (sep + Join(parts[1..], sep)) == Join(parts, sep);
    } else {
      JoinContainsEachPart(parts[1..], sep, k - 1);
      InfixGrowsLeft(parts[k], parts[0] + sep, Join(parts[1..], sep));
    }
  }

  /** The text of a sequence of template pieces, in order. */
  function Concat(pieces: seq<string>): string
    decreases |pieces|
  {
    if pieces == [] then "" else pieces[0] + Concat(pieces[1..])
  }

  lemma {:induction false} ConcatAppend(a: seq<string>, b: seq<string>)
    ensures Concat(a + b) == Concat(a) + Concat(b)
    decreases |a|
  {
    if a == [] {
      assert a + b == b;
    } else {
      ConcatAppend(a[1..], b);
      assert (a + b)[1..] == a[1..] + b;
    }
  }

  /** Any single piece appears, verbatim, in the whole text. */
  lemma {:induction false} PieceIsInfix(pieces: seq<string>, k: nat)
    requires k < |pieces|
    ensures IsInfix(pieces[k], Concat(pieces))
    decreases k
  {
    if k == 0 {
      InfixOfConcat([], pieces[0], Concat(pieces[1..]));
      assert [] + pieces[0] + Concat(pieces[1..]) == Concat(pieces);
    } else {
      PieceIsInfix(pieces[1..], k - 1);
      InfixGrowsLeft(pieces[k], pieces[0], Concat(pieces[1..]));
    }
  }

  lemma EndsWithTransitive(s: string, t: string, u: string)
    requires EndsWith(s, t) && EndsWith(t, u)
    ensures EndsWith(s, u)
  {
    assert s[|s| - |u|..] == s[|s| - |t|..][|t| - |u|..];
  }

  /** The text ends with its last piece. */
  lemma ConcatEndsWithLast(pieces: seq<string>)
    requires |pieces| >= 1
    ensures EndsWith(Concat(pieces), pieces[|pieces| - 1])
  {
    var n := |pieces|;
    PieceTailIsSuffix(pieces, n - 1);
    assert pieces[n - 1..][1..] == [];
  }

  lemma EndsWithGrowsLeft(p: string, s: string, t: string)
    requires EndsWith(s, t)
    ensures EndsWith(p + s, t)
  {
    assert (p + s)[|p + s| - |t|..] == s[|s| - |t|..];
  }

  /** The text ends with its last three pieces. */
  lemma {:induction false} ConcatEndsWithLastThree(pieces: seq<string>)
    requires |pieces| >= 3
    ensures EndsWith(Concat(pieces), pieces[|pieces| - 3] + pieces[|pieces| - 2] + pieces[|pieces| - 1])
    decreases |pieces|
  {
    var n := |pieces|;
    var rest := pieces[1..];
    if n == 3 {
      assert rest[1..][1..] == [];
      assert Concat(rest[1..]) == pieces[2] + "";
      assert Concat(pieces) == pieces[0] + (pieces[1] + (pieces[2] + ""));
    } else {
      ConcatEndsWithLastThree(rest);
      assert rest[|rest| - 3] + rest[|rest| - 2] + rest[|rest| - 1]
          == pieces[n - 3] + pieces[n - 2] + pieces[n - 1];
      EndsWithGrowsLeft(pieces[0], Concat(rest), pieces[n - 3] + pieces[n - 2] + pieces[n - 1]);
    }
  }

  lemma EndsWithAppend(s: string, t: string, x: string)
    requires EndsWith(s, t)
    ensures EndsWith(s + x, t + x)
  {
    assert (s + x)[|s + x| - |t + x|..] == s[|s| - |t|..] + x;
  }

  /** The trailing pieces are a suffix of the whole text. */
  lemma PieceTailIsSuffix(pieces: seq<string>, i: nat)
    requires i <= |pieces|
    ensures EndsWith(Concat(pieces), Concat(pieces[i..]))
  {
    assert pieces == pieces[..i] + pieces[i..];
    ConcatAppend(pieces[..i], pieces[i..]);
  }

  // ----- decimal rendering of an unsigned integer (`u16::to_string`) -----

  predicate AllDigits(s: string)
  {
    forall i :: 0 <= i < |s| ==> IsAsciiDigit(s[i])
  }

  function DigitChar(d: nat): (c: char)
    requires d < 10
    ensures IsAsciiDigit(c) && c as int - '0' as int == d
  {
    ('0' as int + d) as char
  }

  /** Shortest decimal spelling of `n`: digits only, no leading zero. */
  function NatToString(n: nat): (s: string)
    ensures 1 <= |s| && AllDigits(s)
    ensures |s| > 1 ==> s[0] != '0'
    decreases n
  {
    if n < 10 then [DigitChar(n)]
    else NatToString(n / 10) + [DigitChar(n % 10)]
  }

  /** The number a string of decimal digits denotes. */
  function DecimalValue(s: string): nat
    requires AllDigits(s)
    decreases |s|
  {
    if s == [] then 0
    else DecimalValue(s[..|s| - 1]) * 10 + (s[|s| - 1] as int - '0' as int)
  }

  /** Reading the spelling back gives the number that was spelled. */
  lemma {:induction false} DecimalRoundTrip(n: nat)
    ensures DecimalValue(NatToString(n)) == n
    decreases n
  {
    var s := NatToString(n);
    if n >= 10 {
      DecimalRoundTrip(n / 10);
      assert s[..|s| - 1] == NatToString(n / 10);
    }
  }
}
