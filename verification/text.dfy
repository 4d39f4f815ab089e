/** String helpers the handlers' messages are built from: `capitalize`,
    `Array.prototype.join`, number-to-decimal conversion inside template
    literals, and the case-insensitive comparison that the Mongoose
    collation (`locale: 'nl', strength: 2`) performs. */
module Text {

  /** `toUpperCase` on one character, for the ASCII letters. */
  function UpperChar(c: char): char {
    if 'a' <= c <= 'z' then (c as int - 32) as char else c
  }

  /** `toLowerCase` on one character, for the ASCII letters. */
  function LowerChar(c: char): char {
    if 'A' <= c <= 'Z' then (c as int + 32) as char else c
  }

  /** `str.charAt(0).toUpperCase() + str.slice(1)` */
  function Capitalize(s: string): (r: string)
    ensures |r| == |s|
    ensures |s| > 0 ==> r[0] == UpperChar(s[0]) && r[1..] == s[1..]
  {
    if |s| == 0 then "" else [UpperChar(s[0])] + s[1..]
  }

  /** Capitalizing twice is capitalizing once. */
  lemma CapitalizeIdempotent(s: string)
    ensures Capitalize(Capitalize(s)) == Capitalize(s)
  {
    if |s| > 0 {
      var c := Capitalize(s);
      assert UpperChar(c[0]) == c[0];
      assert Capitalize(c) == [c[0]] + c[1..];
    }
  }

  /** A string is left unchanged exactly when it is empty or does not start
      with a lower-case letter. */
  lemma CapitalizeFixedPoint(s: string)
    ensures Capitalize(s) == s <==> |s| == 0 || !('a' <= s[0] <= 'z')
  {
    if |s| > 0 {
      if !('a' <= s[0] <= 'z') {
        assert Capitalize(s) == [s[0]] + s[1..];
        assert [s[0]] + s[1..] == s;
      } else {
        assert Capitalize(s)[0] != s[0];
      }
    }
  }

  /** `roles.map(capitalize)` */
  function CapitalizeAll(ss: seq<string>): (r: seq<string>)
    ensures |r| == |ss|
    ensures forall i :: 0 <= i < |ss| ==> r[i] == Capitalize(ss[i])
  {
    seq(|ss|, i requires 0 <= i < |ss| => Capitalize(ss[i]))
  }

  /** `parts.join(sep)`: the parts in order with `sep` between neighbours. */
  function Join(parts: seq<string>, sep: string): (r: string)
    ensures |parts| == 0 ==> r == ""
    ensures |parts| == 1 ==> r == parts[0]
  {
    if |parts| == 0 then ""
    else if |parts| == 1 then parts[0]
    else parts[0] + sep + Join(parts[1..], sep)
  }

  /** A joined list begins with its first part and ends with its last. */
  lemma {:induction false} JoinEnds(parts: seq<string>, sep: string)
    requires |parts| > 0
    ensures var r := Join(parts, sep);
      |parts[0]| <= |r| && r[..|parts[0]|] == parts[0]
    ensures var r := Join(parts, sep); var last := parts[|parts| - 1];
      |last| <= |r| && r[|r| - |last|..] == last
  {
    if |parts| > 1 {
      var rest := Join(parts[1..], sep);
      JoinEnds(parts[1..], sep);
      assert Join(parts, sep) == parts[0] + (sep + rest);
      assert parts[|parts| - 1] == parts[1..][|parts[1..]| - 1];
    }
  }

  /** Appending one part to a non-empty list appends the separator and the
      part to the joined string. */
  lemma {:induction false} JoinSnoc(parts: seq<string>, p: string, sep: string)
    requires |parts| > 0
    ensures Join(parts + [p], sep) == Join(parts, sep) + sep + p
  {
    var q := parts + [p];
    assert q[0] == parts[0];
    if |parts| == 1 {
      assert q[1..] == [p];
      assert Join(q, sep) == parts[0] + sep + Join([p], sep);
    } else {
      assert q[1..] == parts[1..] + [p];
      JoinSnoc(parts[1..], p, sep);
      assert Join(q, sep) == parts[0] + sep + Join(parts[1..] + [p], sep);
    }
  }

  /** The joining algorithm as ECMAScript states it for `Array.prototype.join`
      (a left-to-right accumulation); it computes `Join`. */
  method JoinLeftToRight(parts: seq<string>, sep: string) returns (r: string)
    ensures r == Join(parts, sep)
  {
    r := "";
    var k := 0;
    while k < |parts|
      invariant 0 <= k <= |parts|
      invariant r == Join(parts[..k], sep)
    {
      if k > 0 {
        JoinSnoc(parts[..k], parts[k], sep);
        r := r + sep;
      }
      assert parts[..k + 1] == parts[..k] + [parts[k]];
      r := r + parts[k];
      k := k + 1;
    }
    assert parts[..|parts|] == parts;
  }

  /** The decimal digit for `d`. */
  function DigitChar(d: nat): char
    requires d < 10
  {
    ('0' as int + d) as char
  }

  predicate IsDigit(c: char) {
    '0' <= c <= '9'
  }

  /** A number interpolated into a template literal: its decimal digits,
      without leading zeros. */
  function NatToString(n: nat): (r: string)
    ensures |r| > 0
    ensures forall i :: 0 <= i < |r| ==> IsDigit(r[i])
    ensures r[0] == '0' ==> n == 0
    decreases n
  {
    if n < 10 then [DigitChar(n)] else NatToString(n / 10) + [DigitChar(n % 10)]
  }

  /** The number a string of decimal digits denotes. */
  function DecimalValue(s: string): nat
    requires forall i :: 0 <= i < |s| ==> IsDigit(s[i])
  {
    if |s| == 0 then 0
    else
      assert IsDigit(s[|s| - 1]);
      DecimalValue(s[..|s| - 1]) * 10 + (s[|s| - 1] as int - '0' as int)
  }

  /** Reading the digits back gives the number: the decimal text of a count
      in a message identifies the count. */
  lemma {:induction false} NatToStringRoundTrip(n: nat)
    ensures DecimalValue(NatToString(n)) == n
    decreases n
  {
    var r := NatToString(n);
    if n >= 10 {
      var prefix := NatToString(n / 10);
      assert r == prefix + [DigitChar(n % 10)];
      assert r[..|r| - 1] == prefix;
      NatToStringRoundTrip(n / 10);
    }
  }

  /** The case-insensitive form of a string (ASCII letters folded). */
  function Fold(s: string): (r: string)
    ensures |r| == |s|
    ensures forall i :: 0 <= i < |s| ==> r[i] == LowerChar(s[i])
  {
    seq(|s|, i requires 0 <= i < |s| => LowerChar(s[i]))
  }

  /** Equality under the collation: strings that differ only in the case of
      their letters are equal. */
  predicate CaseFoldEq(a: string, b: string): (r: bool)
    // the collation compares position by position, ignoring case
    ensures r <==> |a| == |b| && forall i :: 0 <= i < |a| ==> LowerChar(a[i]) == LowerChar(b[i])
  {
    Fold(a) == Fold(b)
  }

  /** Capitalizing a name never changes what the collation compares. */
  lemma CaseFoldEqCapitalize(s: string)
    ensures CaseFoldEq(Capitalize(s), s)
  {
    var c := Capitalize(s);
    if |s| > 0 {
      assert LowerChar(UpperChar(s[0])) == LowerChar(s[0]);
      forall i | 0 <= i < |s|
        ensures LowerChar(c[i]) == LowerChar(s[i])
      {
        if i > 0 {
          assert c[i] == c[1..][i - 1];
        }
      }
    }
  }

  /** Folding distributes over concatenation. */
  lemma FoldAppend(a: string, b: string)
    ensures Fold(a + b) == Fold(a) + Fold(b)
  {
    assert forall i :: 0 <= i < |a + b| ==> Fold(a + b)[i] == (Fold(a) + Fold(b))[i];
  }

  /** A list of capitalized names, joined, is the joined names up to case:
      capitalizing never changes which names a message lists. */
  lemma {:induction false} JoinCapitalizedCaseFold(ss: seq<string>, sep: string)
    ensures CaseFoldEq(Join(CapitalizeAll(ss), sep), Join(ss, sep))
  {
    var cs := CapitalizeAll(ss);
    if |ss| == 1 {
      CaseFoldEqCapitalize(ss[0]);
    } else if |ss| > 1 {
      assert cs[1..] == CapitalizeAll(ss[1..]);
      JoinCapitalizedCaseFold(ss[1..], sep);
      CaseFoldEqCapitalize(ss[0]);
      FoldAppend(cs[0] + sep, Join(cs[1..], sep));
      FoldAppend(cs[0], sep);
      FoldAppend(ss[0] + sep, Join(ss[1..], sep));
      FoldAppend(ss[0], sep);
    }
  }
}
