/** The string operations the service relies on: decimal rendering, character replacement and
    removal, prefixes and containment. */
module Text {

  // ---------- decimal rendering ----------

  function Digit(d: nat): char
    requires d < 10
  {
    '0' + (d as char)
  }

  predicate IsDigit(c: char) { '0' <= c <= '9' }

  function Natural(n: nat): (s: string)
    ensures s != "" && forall c :: c in s ==> IsDigit(c)
  {
    if n < 10 then [Digit(n)] else Natural(n / 10) + [Digit(n % 10)]
  }

  function Decimal(n: int): string {
    if n < 0 then "-" + Natural(-n) else Natural(n)
  }

  lemma {:induction false} NaturalInjective(a: nat, b: nat)
    requires Natural(a) == Natural(b)
    ensures a == b
  {
    var s, t := Natural(a), Natural(b);
    assert a % 10 == b % 10 by {
      assert s[|s| - 1] == Digit(a % 10) && t[|t| - 1] == Digit(b % 10);
    }
    assert (a >= 10 <==> |s| > 1) && (b >= 10 <==> |t| > 1);
    if a >= 10 {
      assert s[..|s| - 1] == Natural(a / 10) && t[..|t| - 1] == Natural(b / 10);
      NaturalInjective(a / 10, b / 10);
    }
  }

  lemma DecimalInjective(a: int, b: int)
    requires Decimal(a) == Decimal(b)
    ensures a == b
  {
    assert a < 0 ==> Decimal(a)[0] == '-' && Decimal(a)[1..] == Natural(-a);
    assert b < 0 ==> Decimal(b)[0] == '-' && Decimal(b)[1..] == Natural(-b);
    assert a >= 0 ==> Decimal(a)[0] in Natural(a);
    assert b >= 0 ==> Decimal(b)[0] in Natural(b);
    if a < 0 {
      NaturalInjective(-a, -b);
    } else {
      NaturalInjective(a, b);
    }
  }

  // ---------- replacement, removal, prefixes, containment ----------

  function Replace(s: string, from: char, to: char): (r: string)
    ensures |r| == |s|
    ensures forall k :: 0 <= k < |s| ==> r[k] == if s[k] == from then to else s[k]
  {
    seq(|s|, k requires 0 <= k < |s| => if s[k] == from then to else s[k])
  }

  /** Replacing is reversible on texts that do not already hold the new character. */
  lemma ReplaceInjective(a: string, b: string, from: char, to: char)
    requires to !in a && to !in b && Replace(a, from, to) == Replace(b, from, to)
    ensures a == b
  {
    forall k | 0 <= k < |a| ensures a[k] == b[k] {
      assert Replace(a, from, to)[k] == Replace(b, from, to)[k];
      assert a[k] in a && b[k] in b;
    }
  }

  function Without(s: string, c: char): (r: string)
    ensures c !in r
    ensures forall d :: d in r ==> d in s
    ensures c !in s ==> r == s
  {
    if s == "" then ""
    else if s[0] == c then Without(s[1..], c)
    else
      assert s == [s[0]] + s[1..];
      [s[0]] + Without(s[1..], c)
  }

  predicate StartsWith(s: string, prefix: string) { prefix <= s }

  predicate OccursAt(s: string, part: string, i: nat) {
    i + |part| <= |s| && s[i..i + |part|] == part
  }

  predicate Contains(s: string, part: string) {
    exists i: nat :: i <= |s| && OccursAt(s, part, i)
  }

  lemma ContainsMiddle(before: string, part: string, after: string)
    ensures Contains(before + part + after, part)
  {
    assert OccursAt(before + part + after, part, |before|);
  }

  lemma ContainsPrefix(part: string, after: string)
    ensures Contains(part + after, part)
  {
    assert OccursAt(part + after, part, 0);
  }

  lemma ContainsItself(part: string)
    ensures Contains(part, part)
  {
    assert OccursAt(part, part, 0);
  }

  lemma OccursInPrefix(s: string, part: string, i: nat, k: nat)
    requires i + |part| <= k <= |s|
    ensures OccursAt(s, part, i) <==> OccursAt(s[..k], part, i)
  {
    assert s[..k][i..i + |part|] == s[i..i + |part|];
  }

  lemma OccursInSuffix(s: string, part: string, i: nat, k: nat)
    requires k <= i && i + |part| <= |s|
    ensures OccursAt(s, part, i) <==> OccursAt(s[k..], part, i - k)
  {
    assert s[k..][i - k..i - k + |part|] == s[i..i + |part|];
  }

  lemma ContainsOnSide(a: string, separator: char, b: string, part: string)
    requires Contains(a, part) || Contains(b, part)
    ensures Contains(a + [separator] + b, part)
  {
    var s, k := a + [separator] + b, |a| + 1;
    assert s[..|a|] == a && s[k..] == b;
    if i: nat :| i <= |a| && OccursAt(a, part, i) {
      OccursInPrefix(s, part, i, |a|);
    } else {
      var i: nat :| i <= |b| && OccursAt(b, part, i);
      OccursInSuffix(s, part, k + i, k);
    }
  }

  lemma SeparatorInside(s: string, part: string, separator: char, i: nat, k: nat)
    requires OccursAt(s, part, i) && i <= k < i + |part| && s[k] == separator
    ensures separator in part
  {
    assert part[k - i] == s[i..i + |part|][k - i];
  }

  /** A part without the separator lies on one side of it. */
  lemma ContainsAround(a: string, separator: char, b: string, part: string)
    requires separator !in part
    ensures Contains(a + [separator] + b, part) <==> Contains(a, part) || Contains(b, part)
  {
    var s, k := a + [separator] + b, |a| + 1;
    assert s[..|a|] == a && s[k..] == b && s[|a|] == separator;
    if i: nat :| i <= |s| && OccursAt(s, part, i) {
      if i + |part| <= |a| {
        OccursInPrefix(s, part, i, |a|);
      } else if i >= k {
        OccursInSuffix(s, part, i, k);
      } else {
        SeparatorInside(s, part, separator, i, |a|);
      }
    }
    if Contains(a, part) || Contains(b, part) {
      ContainsOnSide(a, separator, b, part);
    }
  }
}
