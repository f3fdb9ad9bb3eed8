/**
 * The small pieces of Ruby's core library the modelled code relies on:
 * truthiness, String#gsub with an empty replacement, Array#uniq,
 * Array#join, Integer#to_s and Hash (an insertion-ordered table).
 */
module RubyLib {
  import opened Wrappers

  // ---------------------------------------------------------------------
  // Truthiness
  // ---------------------------------------------------------------------

  /** The Ruby values whose truthiness the modelled code tests. */
  datatype RubyValue = Nil | Boolean(b: bool) | Integer(i: int) | Array(length: nat)

  /** Ruby treats every value except nil and false as true (0 and [] included). */
  predicate Truthy(v: RubyValue)
  {
    !(v.Nil? || v == Boolean(false))
  }

  // ---------------------------------------------------------------------
  // String#gsub(pat, '')
  // ---------------------------------------------------------------------

  /** pat occurs in s starting at index i. */
  predicate MatchAt(s: string, pat: string, i: nat)
  {
    i + |pat| <= |s| && s[i..i + |pat|] == pat
  }

  /** No occurrence of pat in s starts before index n. */
  predicate NoMatchBefore(s: string, pat: string, n: nat)
  {
    forall i: nat :: i < n ==> !MatchAt(s, pat, i)
  }

  /**
   * s.gsub(pat, ''): scanning left to right, every non-overlapping
   * occurrence of pat is removed; scanning resumes after each removed one.
   * An empty pattern leaves the string as it is.
   */
  function RemoveAll(s: string, pat: string): (r: string)
    ensures |r| <= |s|
    decreases |s|
  {
    if |pat| == 0 || |s| < |pat| then s
    else if s[..|pat|] == pat then RemoveAll(s[|pat|..], pat)
    else [s[0]] + RemoveAll(s[1..], pat)
  }

  /** A string with no occurrence of the pattern is left unchanged. */
  lemma {:induction false} RemoveAllNoMatch(s: string, pat: string)
    requires NoMatchBefore(s, pat, |s|)
    ensures RemoveAll(s, pat) == s
    decreases |s|
  {
    if |pat| == 0 || |s| < |pat| {
    } else {
      assert !MatchAt(s, pat, 0);
      assert s[..|pat|] != pat;
      forall i: nat | i < |s| - 1 ensures !MatchAt(s[1..], pat, i) {
        assert !MatchAt(s, pat, i + 1);
        if i + |pat| <= |s| - 1 {
          assert s[1..][i..i + |pat|] == s[i + 1..i + 1 + |pat|];
        }
      }
      RemoveAllNoMatch(s[1..], pat);
    }
  }

  /**
   * A prefix x in which no occurrence of the pattern starts is copied
   * through unchanged, and the scan continues on what follows it.
   */
  lemma {:induction false} RemoveAllKeepsPrefix(x: string, w: string, pat: string)
    requires |pat| > 0
    requires NoMatchBefore(x + w, pat, |x|)
    ensures RemoveAll(x + w, pat) == x + RemoveAll(w, pat)
    decreases |x|
  {
    if |x| == 0 {
      assert x + w == w;
    } else if |x + w| < |pat| {
      assert RemoveAll(w, pat) == w;
    } else {
      var s := x + w;
      assert !MatchAt(s, pat, 0);
      assert s[..|pat|] != pat;
      assert s[1..] == x[1..] + w;
      forall i: nat | i < |x| - 1 ensures !MatchAt(x[1..] + w, pat, i) {
        assert !MatchAt(s, pat, i + 1);
        if i + |pat| <= |s| - 1 {
          assert s[1..][i..i + |pat|] == s[i + 1..i + 1 + |pat|];
        }
      }
      RemoveAllKeepsPrefix(x[1..], w, pat);
      assert s[0] == x[0];
      assert [x[0]] + (x[1..] + RemoveAll(w, pat)) == x + RemoveAll(w, pat);
    }
  }

  /** An occurrence at the very start is removed and the scan goes on after it. */
  lemma RemoveAllLeading(pat: string, w: string)
    requires |pat| > 0
    ensures RemoveAll(pat + w, pat) == RemoveAll(w, pat)
  {
    assert (pat + w)[..|pat|] == pat;
    assert (pat + w)[|pat|..] == w;
  }

  /**
   * Inserting one occurrence of the pattern after a prefix x in which no
   * occurrence starts (before or after the insertion) makes no difference
   * to the result.
   */
  lemma RemoveAllIgnoresInsertion(x: string, y: string, pat: string)
    requires |pat| > 0
    requires NoMatchBefore(x + pat + y, pat, |x|)
    requires NoMatchBefore(x + y, pat, |x|)
    ensures RemoveAll(x + pat + y, pat) == RemoveAll(x + y, pat)
  {
    assert x + pat + y == x + (pat + y);
    RemoveAllKeepsPrefix(x, pat + y, pat);
    RemoveAllLeading(pat, y);
    RemoveAllKeepsPrefix(x, y, pat);
  }

  // ---------------------------------------------------------------------
  // Array#uniq
  // ---------------------------------------------------------------------

  predicate NoDuplicates<T(==)>(s: seq<T>)
  {
    forall i, j :: 0 <= i < j < |s| ==> s[i] != s[j]
  }

  /** a is a prefix of b. */
  predicate IsPrefix<T(==)>(a: seq<T>, b: seq<T>)
  {
    |a| <= |b| && b[..|a|] == a
  }

  /**
   * Array#uniq: the elements of s without repetitions, each kept at its
   * first occurrence.
   */
  function Uniq<T(==)>(s: seq<T>): (r: seq<T>)
    ensures forall i :: 0 <= i < |r| ==> r[i] in s
    ensures forall i :: 0 <= i < |s| ==> s[i] in r
    ensures NoDuplicates(r)
    decreases |s|
  {
    if |s| == 0 then []
    else
      var u := Uniq(s[..|s| - 1]);
      if s[|s| - 1] in u then u else u + [s[|s| - 1]]
  }

  /** Appending one element to s appends it to uniq(s) unless s already holds it. */
  lemma UniqSnoc<T>(s: seq<T>, x: T)
    ensures Uniq(s + [x]) == if x in s then Uniq(s) else Uniq(s) + [x]
  {
    assert (s + [x])[..|s|] == s;
  }

  /** Uniq keeps first occurrences: uniq(a) is a prefix of uniq(a + b). */
  lemma {:induction false} UniqPrefix<T>(a: seq<T>, b: seq<T>)
    ensures IsPrefix(Uniq(a), Uniq(a + b))
    decreases |b|
  {
    if |b| == 0 {
      assert a + b == a;
    } else {
      var b' := b[..|b| - 1];
      UniqPrefix(a, b');
      assert (a + b)[..|a + b| - 1] == a + b';
    }
  }

  /** A sequence with no repetitions is its own uniq. */
  lemma {:induction false} UniqOfDistinct<T>(s: seq<T>)
    requires NoDuplicates(s)
    ensures Uniq(s) == s
    decreases |s|
  {
    if |s| > 0 {
      var p := s[..|s| - 1];
      UniqOfDistinct(p);
      assert s[|s| - 1] !in p by {
        forall i | 0 <= i < |p| ensures p[i] != s[|s| - 1] {
          assert s[i] != s[|s| - 1];
        }
      }
      assert p + [s[|s| - 1]] == s;
    }
  }

  // ---------------------------------------------------------------------
  // Array#join
  // ---------------------------------------------------------------------

  /** parts.join(sep). */
  function Join(parts: seq<string>, sep: string): string
    decreases |parts|
  {
    if |parts| == 0 then ""
    else if |parts| == 1 then parts[0]
    else parts[0] + sep + Join(parts[1..], sep)
  }

  /** t occurs in s. */
  predicate Contains(s: string, t: string)
  {
    exists i: nat | i <= |s| :: MatchAt(s, t, i)
  }

  /** Every part occurs in the joined string. */
  lemma {:induction false} JoinContainsParts(parts: seq<string>, sep: string, k: nat)
    requires k < |parts|
    ensures Contains(Join(parts, sep), parts[k])
    decreases |parts|
  {
    var j := Join(parts, sep);
    if |parts| == 1 {
      assert MatchAt(j, parts[0], 0);
    } else if k == 0 {
      assert j[0..|parts[0]|] == parts[0];
      assert MatchAt(j, parts[0], 0);
    } else {
      JoinContainsParts(parts[1..], sep, k - 1);
      var rest := Join(parts[1..], sep);
      var i: nat :| MatchAt(rest, parts[k], i);
      assert MatchAt(rest, parts[k], i);
      var off := |parts[0]| + |sep|;
      assert j == parts[0] + sep + rest;
      assert j[off + i..off + i + |parts[k]|] == rest[i..i + |parts[k]|];
      assert MatchAt(j, parts[k], off + i);
    }
  }

  /** When every part is non-empty, the join is empty exactly when there are no parts. */
  lemma {:induction false} JoinEmptyIff(parts: seq<string>, sep: string)
    requires forall k :: 0 <= k < |parts| ==> |parts[k]| > 0
    ensures Join(parts, sep) == "" <==> |parts| == 0
  {
    if |parts| > 0 {
      JoinContainsParts(parts, sep, 0);
      var i: nat :| MatchAt(Join(parts, sep), parts[0], i);
      assert MatchAt(Join(parts, sep), parts[0], i);
    }
  }

  /** String containment survives concatenation on either side. */
  lemma ContainsInContext(pre: string, t: string, post: string)
    ensures Contains(pre + t + post, t)
  {
    assert (pre + t + post)[|pre|..|pre| + |t|] == t;
    assert MatchAt(pre + t + post, t, |pre|);
  }

  /** Containment is transitive. */
  lemma ContainsTransitive(s: string, t: string, u: string)
    requires Contains(s, t) && Contains(t, u)
    ensures Contains(s, u)
  {
    var i: nat :| MatchAt(s, t, i);
    var j: nat :| MatchAt(t, u, j);
    assert MatchAt(s, t, i) && MatchAt(t, u, j);
    assert s[i..i + |t|] == t;
    forall m | 0 <= m < |u| ensures s[i + j + m] == u[m] {
      assert s[i + j + m] == s[i..i + |t|][j + m] == t[j + m];
      assert t[j..j + |u|][m] == t[j + m];
    }
    assert s[i + j..i + j + |u|] == u;
    assert MatchAt(s, u, i + j);
  }

  // ---------------------------------------------------------------------
  // Integer#to_s
  // ---------------------------------------------------------------------

  function DigitChar(d: nat): (c: char)
    requires d < 10
    ensures '0' <= c <= '9'
  {
    "0123456789"[d]
  }

  /** The decimal numeral of n, most significant digit first. */
  function Decimal(n: nat): (s: string)
    ensures |s| >= 1
    ensures n >= 10 ==> |s| >= 2
    decreases n
  {
    if n < 10 then [DigitChar(n)] else Decimal(n / 10) + [DigitChar(n % 10)]
  }

  /** A numeral is made of digits only. */
  lemma {:induction false} DecimalDigits(n: nat)
    ensures forall k :: 0 <= k < |Decimal(n)| ==> '0' <= Decimal(n)[k] <= '9'
    decreases n
  {
    if n >= 10 {
      DecimalDigits(n / 10);
    }
  }

  /** Distinct numbers have distinct numerals. */
  lemma {:induction false} DecimalInjective(a: nat, b: nat)
    requires Decimal(a) == Decimal(b)
    ensures a == b
    decreases a
  {
    var s := Decimal(a);
    if a < 10 && b < 10 {
      assert DigitChar(a) == s[0] == DigitChar(b);
    } else if a >= 10 && b >= 10 {
      assert DigitChar(a % 10) == s[|s| - 1] == DigitChar(b % 10);
      assert Decimal(a / 10) == s[..|s| - 1] == Decimal(b / 10);
      DecimalInjective(a / 10, b / 10);
    }
  }

  /** Integer#to_s. */
  function IntToS(i: int): string
  {
    if i < 0 then "-" + Decimal(-i) else Decimal(i)
  }

  /** The text of i starts with a minus sign exactly when i is negative. */
  lemma IntToSSign(i: int)
    ensures |IntToS(i)| > 0
    ensures IntToS(i)[0] == '-' <==> i < 0
  {
    if i >= 0 {
      DecimalDigits(i);
    }
  }

  /** Distinct integers print differently: a sign is never a digit. */
  lemma IntToSInjective(a: int, b: int)
    requires IntToS(a) == IntToS(b)
    ensures a == b
  {
    if a < 0 && b < 0 {
      var s := IntToS(a);
      assert s == "-" + Decimal(-a) && s == "-" + Decimal(-b);
      assert ("-" + Decimal(-a))[1..] == Decimal(-a);
      assert ("-" + Decimal(-b))[1..] == Decimal(-b);
      DecimalInjective(-a, -b);
    } else if a >= 0 && b >= 0 {
      DecimalInjective(a, b);
    } else {
      IntToSSign(a);
      IntToSSign(b);
    }
  }

  // ---------------------------------------------------------------------
  // Hash: insertion-ordered key/value table
  // ---------------------------------------------------------------------

  /** A Ruby Hash with String keys: its entries in insertion order. */
  type Hash<V> = seq<(string, V)>

  function Keys<V>(h: Hash<V>): set<string>
  {
    set i | 0 <= i < |h| :: h[i].0
  }

  /** h[k], nil when k is not a key. */
  function Get<V>(h: Hash<V>, k: string): Option<V>
    decreases |h|
  {
    if |h| == 0 then None
    else if h[0].0 == k then Some(h[0].1)
    else Get(h[1..], k)
  }

  lemma KeysCons<V>(p: (string, V), t: Hash<V>)
    ensures Keys([p] + t) == {p.0} + Keys(t)
  {
    var r := [p] + t;
    forall x | x in Keys(r) ensures x in {p.0} + Keys(t) {
      var i :| 0 <= i < |r| && r[i].0 == x;
      if i > 0 { assert r[i] == t[i - 1]; }
    }
    forall x | x in Keys(t) ensures x in Keys(r) {
      var i :| 0 <= i < |t| && t[i].0 == x;
      assert r[i + 1] == t[i];
    }
    assert r[0] == p;
  }

  /** h[k] is nil exactly when k is not a key, and otherwise the value of the first pair with key k. */
  lemma {:induction false} GetContract<V>(h: Hash<V>, k: string)
    ensures Get(h, k).Some? <==> k in Keys(h)
    ensures Get(h, k).Some? ==>
      exists i :: 0 <= i < |h| && h[i] == (k, Get(h, k).value) && forall j :: 0 <= j < i ==> h[j].0 != k
    decreases |h|
  {
    if |h| > 0 {
      assert h == [h[0]] + h[1..];
      KeysCons(h[0], h[1..]);
      if h[0].0 != k {
        GetContract(h[1..], k);
        if Get(h, k).Some? {
          var i :| 0 <= i < |h[1..]| && h[1..][i] == (k, Get(h, k).value)
                   && forall j :: 0 <= j < i ==> h[1..][j].0 != k;
          assert h[i + 1] == h[1..][i];
          forall j | 0 <= j < i + 1 ensures h[j].0 != k {
            if j > 0 { assert h[j] == h[1..][j - 1]; }
          }
        }
      } else {
        assert h[0] == (k, Get(h, k).value);
      }
    }
  }

  /** h[k] = v: an existing key keeps its position, a new key goes last. */
  function Put<V>(h: Hash<V>, k: string, v: V): (r: Hash<V>)
    ensures Keys(r) == Keys(h) + {k}
    ensures Get(r, k) == Some(v)
    ensures forall k' :: k' != k ==> Get(r, k') == Get(h, k')
    decreases |h|
  {
    if |h| == 0 then
      KeysCons((k, v), h);
      assert [(k, v)] + h == [(k, v)];
      [(k, v)]
    else
      assert h == [h[0]] + h[1..];
      KeysCons(h[0], h[1..]);
      if h[0].0 == k then
        KeysCons((k, v), h[1..]);
        [(k, v)] + h[1..]
      else
        var t := Put(h[1..], k, v);
        KeysCons(h[0], t);
        [h[0]] + t
  }

  /** h.keys: the keys in insertion order. */
  function Names<V>(h: Hash<V>): (r: seq<string>)
    ensures |r| == |h|
    ensures forall i :: 0 <= i < |h| ==> r[i] == h[i].0
  {
    seq(|h|, i requires 0 <= i < |h| => h[i].0)
  }

  lemma NamesCons<V>(p: (string, V), t: Hash<V>)
    ensures Names([p] + t) == [p.0] + Names(t)
  {
    var r := [p] + t;
    assert forall i :: 0 < i < |r| ==> r[i] == t[i - 1];
  }

  /** h[k] = v keeps the order of the keys and appends a new key at the end. */
  lemma {:induction false} PutNames<V>(h: Hash<V>, k: string, v: V)
    ensures Names(Put(h, k, v)) == if k in Keys(h) then Names(h) else Names(h) + [k]
    decreases |h|
  {
    var r := Put(h, k, v);
    if |h| > 0 {
      assert h == [h[0]] + h[1..];
      KeysCons(h[0], h[1..]);
      NamesCons(h[0], h[1..]);
      if h[0].0 == k {
        NamesCons((k, v), h[1..]);
      } else {
        PutNames(h[1..], k, v);
        NamesCons(h[0], Put(h[1..], k, v));
      }
    }
  }

  /** When the keys of h are uniq(s), after h[k] = v they are uniq(t) for t = s + [k]. */
  lemma PutUniqNames<V>(h: Hash<V>, s: seq<string>, t: seq<string>, k: string, v: V)
    requires Names(h) == Uniq(s)
    requires k in Keys(h) <==> k in s
    requires t == s + [k]
    ensures Names(Put(h, k, v)) == Uniq(t)
  {
    PutNames(h, k, v);
    UniqSnoc(s, k);
  }
}
