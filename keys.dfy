/** Row ordering keys. A position is a string compared byte by byte (the
    store's `collate('C')` ordering); since UTF-8 preserves code-point order,
    that is lexicographic order on the characters, with a proper prefix
    smaller than each of its extensions.

    The key generator is a foreign library whose internals are not part of
    this model. KeyBetween keeps only its contract: given bounds lo < hi
    (None meaning unbounded on that side) it returns some key strictly
    between them; which key, including its random jitter, is left open. */
module Keys {
  import opened Common

  type Key = string

  /** Byte-order comparison. */
  predicate Less(a: Key, b: Key) {
    if |a| == 0 then |b| > 0
    else if |b| == 0 then false
    else a[0] < b[0] || (a[0] == b[0] && Less(a[1..], b[1..]))
  }

  predicate LessEq(a: Key, b: Key) {
    a == b || Less(a, b)
  }

  lemma {:induction false} LessIrreflexive(a: Key)
    ensures !Less(a, a)
  {
    if |a| > 0 {
      LessIrreflexive(a[1..]);
    }
  }

  lemma {:induction false} LessTransitive(a: Key, b: Key, c: Key)
    requires Less(a, b) && Less(b, c)
    ensures Less(a, c)
  {
    if |a| > 0 && |b| > 0 && |c| > 0 && a[0] == b[0] == c[0] {
      LessTransitive(a[1..], b[1..], c[1..]);
    }
  }

  /** Any two distinct keys are ordered one way or the other. */
  lemma {:induction false} LessTotal(a: Key, b: Key)
    requires a != b
    ensures Less(a, b) || Less(b, a)
  {
    if |a| > 0 && |b| > 0 && a[0] == b[0] {
      assert a == [a[0]] + a[1..] && b == [b[0]] + b[1..];
      LessTotal(a[1..], b[1..]);
    }
  }

  lemma LessAsymmetric(a: Key, b: Key)
    requires Less(a, b)
    ensures !Less(b, a)
  {
  }

  lemma LessEqTransitive(a: Key, b: Key, c: Key)
    requires LessEq(a, b) && LessEq(b, c)
    ensures LessEq(a, c)
  {
    if a != b && b != c {
      LessTransitive(a, b, c);
    }
  }

  /** A proper prefix is smaller than its extensions. */
  lemma {:induction false} PrefixLess(a: Key, b: Key)
    requires |a| < |b| && b[..|a|] == a
    ensures Less(a, b)
  {
    if |a| > 0 {
      assert a[1..] == b[1..][..|a| - 1];
      PrefixLess(a[1..], b[1..]);
    }
  }

  /** Keys that agree up to position i and differ there are ordered by that character. */
  lemma {:induction false} LessAtDifference(a: Key, b: Key, i: nat)
    requires i < |a| && i < |b| && a[..i] == b[..i] && a[i] < b[i]
    ensures Less(a, b)
  {
    if i > 0 {
      assert a[0] == a[..i][0] == b[..i][0] == b[0];
      assert a[1..][..i - 1] == a[..i][1..] == b[..i][1..] == b[1..][..i - 1];
      LessAtDifference(a[1..], b[1..], i - 1);
    }
  }

  /** Conversely, a < b holds only because a is a proper prefix of b or because
      of a first difference. */
  lemma {:induction false} LessCases(a: Key, b: Key)
    requires Less(a, b)
    ensures (|a| < |b| && b[..|a|] == a)
         || (exists i :: 0 <= i < |a| && i < |b| && a[..i] == b[..i] && a[i] < b[i])
  {
    if |a| > 0 && a[0] == b[0] {
      LessCases(a[1..], b[1..]);
      if |a| - 1 < |b| - 1 && b[1..][..|a| - 1] == a[1..] {
        assert b[..|a|] == [b[0]] + b[1..][..|a| - 1];
        assert a == [a[0]] + a[1..];
      } else {
        var i :| 0 <= i < |a| - 1 && i < |b| - 1 && a[1..][..i] == b[1..][..i] && a[1..][i] < b[1..][i];
        assert a[..i + 1] == [a[0]] + a[1..][..i];
        assert b[..i + 1] == [b[0]] + b[1..][..i];
        assert a[i + 1] < b[i + 1];
      }
    } else if |a| > 0 {
      assert a[..0] == b[..0];
    }
  }

  /** The keys the generator works with: non-empty and not ending in the
      smallest character. Every key of the library's base-62 alphabet is one.
      Between two such keys there is always a third (BetweenExists), which
      fails for keys in general: nothing lies strictly between "a" and "a\0". */
  predicate WellFormed(k: Key) {
    |k| > 0 && k[|k| - 1] != '\0'
  }

  /** lo < k < hi, a missing bound imposing nothing. */
  predicate InBounds(lo: Option<Key>, k: Key, hi: Option<Key>) {
    (lo.Some? ==> Less(lo.value, k)) && (hi.Some? ==> Less(k, hi.value))
  }

  /** The inputs the generator's contract covers. */
  predicate ValidBounds(lo: Option<Key>, hi: Option<Key>) {
    && (lo.Some? ==> WellFormed(lo.value))
    && (hi.Some? ==> WellFormed(hi.value))
    && (lo.Some? && hi.Some? ==> Less(lo.value, hi.value))
  }

  /** A key just below a well-formed key: drop its last character c and append
      "\0" followed by a non-zero character. */
  lemma KeyBelow(hi: Key) returns (k: Key)
    requires WellFormed(hi)
    ensures WellFormed(k) && Less(k, hi)
    ensures |k| == |hi| + 1 && k[..|hi| - 1] == hi[..|hi| - 1]
  {
    var n := |hi| - 1;
    k := hi[..n] + ['\0', 'a'];
    assert k[..n] == hi[..n];
    LessAtDifference(k, hi, n);
  }

  /** Between well-formed bounds in order there is a well-formed key. */
  lemma BetweenExists(lo: Option<Key>, hi: Option<Key>)
    requires ValidBounds(lo, hi)
    ensures exists k :: WellFormed(k) && InBounds(lo, k, hi)
  {
    if lo.None? && hi.None? {
      assert WellFormed("a") && InBounds(lo, "a", hi);
    } else if hi.None? {
      var k := lo.value + ['a'];
      assert k[..|lo.value|] == lo.value;
      PrefixLess(lo.value, k);
      assert WellFormed(k) && InBounds(lo, k, hi);
    } else if lo.None? {
      var k := KeyBelow(hi.value);
      assert WellFormed(k) && InBounds(lo, k, hi);
    } else {
      var a, b := lo.value, hi.value;
      LessCases(a, b);
      if |a| < |b| && b[..|a|] == a {
        var k := KeyBelow(b);
        assert k[..|a|] == b[..|b| - 1][..|a|] == a;
        PrefixLess(a, k);
        assert WellFormed(k) && InBounds(lo, k, hi);
      } else {
        var i :| 0 <= i < |a| && i < |b| && a[..i] == b[..i] && a[i] < b[i];
        var k := a + ['a'];
        assert k[..|a|] == a;
        PrefixLess(a, k);
        assert k[..i] == a[..i] && k[i] == a[i];
        LessAtDifference(k, b, i);
        assert WellFormed(k) && InBounds(lo, k, hi);
      }
    }
  }

  /** The ordering-key generator (`generateJitteredKeyBetween`), modelled by its
      contract alone: on bounds it accepts, any well-formed key strictly between
      them; on other bounds, any key at all, with no promise. */
  method KeyBetween(lo: Option<Key>, hi: Option<Key>) returns (k: Key)
    ensures ValidBounds(lo, hi) ==> WellFormed(k) && InBounds(lo, k, hi)
  {
    if ValidBounds(lo, hi) {
      BetweenExists(lo, hi);
      k :| WellFormed(k) && InBounds(lo, k, hi);
    } else {
      k :| true;
    }
  }

  /** The contract of `between(after, None)` does not keep the key next to its
      anchor: whenever another key b follows the anchor a, some key the
      generator may return lands after b as well. */
  lemma AfterAnchorMayOvershoot(a: Key, b: Key)
    requires WellFormed(a) && Less(a, b)
    ensures exists k :: WellFormed(k) && InBounds(Some(a), k, None) && Less(b, k)
  {
    var k := b + ['a'];
    assert k[..|b|] == b;
    PrefixLess(b, k);
    LessTransitive(a, b, k);
    assert WellFormed(k) && InBounds(Some(a), k, None) && Less(b, k);
  }

  /** `between(None, None)` is not "before everything": for any existing key p
      the generator may return a key after p. */
  lemma UnboundedMayLandAfter(p: Key)
    ensures exists k :: WellFormed(k) && InBounds(None, k, None) && Less(p, k)
  {
    var k := p + ['a'];
    assert k[..|p|] == p;
    PrefixLess(p, k);
    assert WellFormed(k) && InBounds(None, k, None) && Less(p, k);
  }
}
