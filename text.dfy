/**
 ASCII text operations that the dashboard's search relies on: lower-casing
 (`String.prototype.toLowerCase` restricted to ASCII), substring containment
 (`String.prototype.includes`), joining with a separator
 (`Array.prototype.join`) and the decimal rendering of an integer
 (`Number.prototype.toString`).
 */
module Text {

  /* ---------------------------------------------------------------------
     Lower-casing
     --------------------------------------------------------------------- */

  predicate IsUpper(c: char) { 'A' <= c <= 'Z' }

  /** Lower-cases one ASCII letter; every other character is kept. */
  function LowerChar(c: char): (d: char)
    ensures !IsUpper(d)
  {
    if IsUpper(c) then (c as int + 32) as char else c
  }

  /** ASCII lower-casing of a whole string, one character at a time. */
  function Lower(s: string): string
  {
    seq(|s|, i requires 0 <= i < |s| => LowerChar(s[i]))
  }

  /** Lower-casing distributes over concatenation. */
  lemma LowerAppend(a: string, b: string)
    ensures Lower(a + b) == Lower(a) + Lower(b)
  {
    assert forall i :: 0 <= i < |a + b| ==> Lower(a + b)[i] == (Lower(a) + Lower(b))[i];
  }

  /** Only the empty string lower-cases to the empty string. */
  lemma LowerEmpty(s: string)
    ensures Lower(s) == [] <==> s == []
  {
  }

  /* ---------------------------------------------------------------------
     Substring containment
     --------------------------------------------------------------------- */

  /** `n` occurs in `h` starting at index `i`. */
  predicate OccursAt(h: string, n: string, i: int)
  {
    0 <= i && i + |n| <= |h| && h[i..i + |n|] == n
  }

  /** `h.includes(n)`: `n` occurs at some position of `h`. */
  predicate Contains(h: string, n: string)
  {
    exists i :: 0 <= i <= |h| - |n| && OccursAt(h, n, i)
  }

  /** The characters of an occurrence, one by one. */
  lemma OccursAtChar(h: string, n: string, i: int, t: int)
    requires OccursAt(h, n, i) && 0 <= t < |n|
    ensures h[i + t] == n[t] && n[t] in n
  {
    assert h[i..i + |n|][t] == n[t];
  }

  /** An occurrence at a given index is a containment. */
  lemma ContainsAt(h: string, n: string, i: int)
    requires OccursAt(h, n, i)
    ensures Contains(h, n)
  {
  }

  /** The empty string is contained in every string. */
  lemma ContainsEmpty(h: string)
    ensures Contains(h, "")
  {
    assert OccursAt(h, "", 0);
    ContainsAt(h, "", 0);
  }

  /** Every string contains itself. */
  lemma ContainsSelf(h: string)
    ensures Contains(h, h)
  {
    assert OccursAt(h, h, 0);
    ContainsAt(h, h, 0);
  }

  /** A substring of a substring is a substring. */
  lemma ContainsTransitive(h: string, m: string, n: string)
    requires Contains(h, m) && Contains(m, n)
    ensures Contains(h, n)
  {
    var i :| 0 <= i <= |h| - |m| && OccursAt(h, m, i);
    var j :| 0 <= j <= |m| - |n| && OccursAt(m, n, j);
    forall t | 0 <= t < |n| ensures h[i + j + t] == n[t] {
      assert m[j + t] == n[t];
      assert h[i + (j + t)] == m[j + t];
    }
    assert h[i + j..i + j + |n|] == n;
    ContainsAt(h, n, i + j);
  }

  /** Both sides of a concatenation are contained in it. */
  lemma ContainsParts(a: string, b: string)
    ensures Contains(a + b, a) && Contains(a + b, b)
  {
    assert (a + b)[0..|a|] == a;
    ContainsAt(a + b, a, 0);
    assert (a + b)[|a|..|a| + |b|] == b;
    ContainsAt(a + b, b, |a|);
  }

  /** Lower-casing both sides preserves a containment. */
  lemma ContainsLower(h: string, n: string)
    requires Contains(h, n)
    ensures Contains(Lower(h), Lower(n))
  {
    var i :| 0 <= i <= |h| - |n| && OccursAt(h, n, i);
    assert Lower(h)[i..i + |n|] == Lower(h[i..i + |n|]);
    ContainsAt(Lower(h), Lower(n), i);
  }

  /** A string without spaces that occurs in `a + " " + b` occurs in `a` or
      in `b`. */
  lemma ContainsAcrossSpace(a: string, b: string, n: string)
    requires ' ' !in n && Contains(a + " " + b, n)
    ensures Contains(a, n) || Contains(b, n)
  {
    var h := a + " " + b;
    var i :| 0 <= i <= |h| - |n| && OccursAt(h, n, i);
    if i + |n| <= |a| {
      assert h[i..i + |n|] == a[i..i + |n|];
      ContainsAt(a, n, i);
    } else if i > |a| {
      assert h[i..i + |n|] == b[i - |a| - 1..i - |a| - 1 + |n|];
      ContainsAt(b, n, i - |a| - 1);
    } else {
      OccursAtChar(h, n, i, |a| - i);
      assert false;
    }
  }

  /* ---------------------------------------------------------------------
     Joining
     --------------------------------------------------------------------- */

  /** `parts.join(sep)`. */
  function Join(parts: seq<string>, sep: string): string
  {
    if parts == [] then ""
    else if |parts| == 1 then parts[0]
    else parts[0] + sep + Join(parts[1..], sep)
  }

  /** Every part of a join is contained in the joined string. */
  lemma {:induction false} JoinContainsPart(parts: seq<string>, sep: string, k: int)
    requires 0 <= k < |parts|
    ensures Contains(Join(parts, sep), parts[k])
  {
    if |parts| == 1 {
      ContainsSelf(parts[0]);
    } else if k == 0 {
      assert Join(parts, sep) == parts[0] + (sep + Join(parts[1..], sep));
      ContainsParts(parts[0], sep + Join(parts[1..], sep));
    } else {
      JoinContainsPart(parts[1..], sep, k - 1);
      assert Join(parts, sep) == (parts[0] + sep) + Join(parts[1..], sep);
      ContainsParts(parts[0] + sep, Join(parts[1..], sep));
      ContainsTransitive(Join(parts, sep), Join(parts[1..], sep), parts[k]);
    }
  }

  /** A string without spaces occurs in a space-joined list only by
      occurring in one of its parts. */
  lemma {:induction false} JoinContainsOnlyParts(parts: seq<string>, n: string)
    requires parts != [] && ' ' !in n && Contains(Join(parts, " "), n)
    ensures exists k :: 0 <= k < |parts| && Contains(parts[k], n)
  {
    if |parts| == 1 {
      assert Contains(parts[0], n);
    } else {
      ContainsAcrossSpace(parts[0], Join(parts[1..], " "), n);
      if !Contains(parts[0], n) {
        JoinContainsOnlyParts(parts[1..], n);
        var k :| 0 <= k < |parts[1..]| && Contains(parts[1..][k], n);
        assert Contains(parts[k + 1], n);
      }
    }
  }

  /** Lower-casing a list of strings, one by one. */
  function LowerAll(parts: seq<string>): (r: seq<string>)
    ensures |r| == |parts|
    ensures forall k :: 0 <= k < |parts| ==> r[k] == Lower(parts[k])
  {
    seq(|parts|, k requires 0 <= k < |parts| => Lower(parts[k]))
  }

  /** Lower-casing a space-joined list lower-cases each part. */
  lemma {:induction false} LowerJoin(parts: seq<string>)
    ensures Lower(Join(parts, " ")) == Join(LowerAll(parts), " ")
  {
    if |parts| > 1 {
      LowerJoin(parts[1..]);
      assert LowerAll(parts)[1..] == LowerAll(parts[1..]);
      LowerAppend(parts[0], " ");
      LowerAppend(parts[0] + " ", Join(parts[1..], " "));
      assert Lower(" ") == " ";
    }
  }

  /** Two adjacent parts, with the separator between them, are contained in
      the join: a search term may run across a field boundary. */
  lemma {:induction false} JoinContainsAdjacent(parts: seq<string>, sep: string, k: int)
    requires 0 <= k < |parts| - 1
    ensures Contains(Join(parts, sep), parts[k] + sep + parts[k + 1])
  {
    var tail := Join(parts[1..], sep);
    assert Join(parts, sep) == parts[0] + sep + tail;
    if k == 0 {
      JoinContainsPart(parts[1..], sep, 0);
      if |parts| == 2 {
        ContainsSelf(parts[0] + sep + parts[1]);
      } else {
        assert tail == parts[1] + (sep + Join(parts[2..], sep));
        assert Join(parts, sep) == (parts[0] + sep + parts[1]) + (sep + Join(parts[2..], sep));
        ContainsParts(parts[0] + sep + parts[1], sep + Join(parts[2..], sep));
      }
    } else {
      JoinContainsAdjacent(parts[1..], sep, k - 1);
      assert Join(parts, sep) == (parts[0] + sep) + tail;
      ContainsParts(parts[0] + sep, tail);
      ContainsTransitive(Join(parts, sep), tail, parts[k] + sep + parts[k + 1]);
    }
  }

  /* ---------------------------------------------------------------------
     Decimal rendering of integers
     --------------------------------------------------------------------- */

  predicate IsDigit(c: char) { '0' <= c <= '9' }

  function DigitChar(d: nat): (c: char)
    requires d < 10
    ensures IsDigit(c)
  {
    ('0' as int + d) as char
  }

  function DigitValue(c: char): nat
    requires IsDigit(c)
  {
    c as int - '0' as int
  }

  /** Decimal digits of a natural number, most significant first, without
      leading zeros. */
  function NatToString(n: nat): (s: string)
    ensures |s| >= 1
    ensures forall i :: 0 <= i < |s| ==> IsDigit(s[i])
    ensures s[0] == '0' ==> n == 0
    decreases n
  {
    if n < 10 then [DigitChar(n)] else NatToString(n / 10) + [DigitChar(n % 10)]
  }

  /** `n.toString()` for an integer: a minus sign before the digits of a
      negative number. */
  function IntToString(n: int): (s: string)
    ensures |s| >= 1
    ensures s[0] == '-' <==> n < 0
  {
    if n < 0 then "-" + NatToString(-n) else NatToString(n)
  }

  /** Reads back a string of decimal digits. */
  function ParseNat(s: string): nat
    requires forall i :: 0 <= i < |s| ==> IsDigit(s[i])
  {
    if s == [] then 0 else ParseNat(s[..|s| - 1]) * 10 + DigitValue(s[|s| - 1])
  }

  /** Reads back an optional minus sign and decimal digits. */
  function ParseInt(s: string): int
    requires s != [] && s[0] == '-' ==> forall i :: 1 <= i < |s| ==> IsDigit(s[i])
    requires s == [] || s[0] != '-' ==> forall i :: 0 <= i < |s| ==> IsDigit(s[i])
  {
    if s != [] && s[0] == '-' then -(ParseNat(s[1..]) as int) else ParseNat(s)
  }

  /** Parsing the decimal rendering of a natural number gives it back. */
  lemma {:induction false} ParseNatToString(n: nat)
    ensures ParseNat(NatToString(n)) == n
    decreases n
  {
    if n >= 10 {
      var s := NatToString(n);
      assert s[..|s| - 1] == NatToString(n / 10);
      ParseNatToString(n / 10);
    }
  }

  /** Parsing the decimal rendering of an integer gives it back. */
  lemma ParseIntToString(n: int)
    ensures ParseInt(IntToString(n)) == n
  {
    if n < 0 {
      assert IntToString(n)[1..] == NatToString(-n);
      ParseNatToString(-n);
    } else {
      ParseNatToString(n);
    }
  }

  /** Two integers render to the same string exactly when they are equal. */
  lemma IntToStringInjective(a: int, b: int)
    ensures IntToString(a) == IntToString(b) <==> a == b
  {
    ParseIntToString(a);
    ParseIntToString(b);
  }
}
