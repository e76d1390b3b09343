// currency/keys.go: weighted keys, the key set with its threshold and
// content hash, and the threshold check over fact signatures.

module CurrencyKeys {
  import opened Primitives

  /** maxKeyInKeys: the most keys one key set may hold. */
  const MAX_KEY_IN_KEYS: nat := 10

  datatype KeysError =
    | InvalidKeyWeight                      // a weight outside [1, 100]
    | InvalidPublickey(k: Publickey)        // the public key failed its own check
    | InvalidThreshold(threshold: Uint)     // a threshold outside [1, 100]
    | InvalidHash                           // the stored hash is empty
    | EmptyKeys
    | KeysOver(n: nat)                      // more than MAX_KEY_IN_KEYS keys
    | DuplicatedKeys
    | WeightUnderThreshold(total: nat, threshold: Uint)
    | HashNotMatched                        // stored hash differs from the recomputed one
    | UnknownKey(signer: Publickey)         // a signer that is not in the key set
    | NotPassedThreshold(sum: Uint, threshold: Uint)

  // =====================================================================
  // Key: a public key and its weight

  datatype Key = Key(k: Publickey, w: Uint)

  predicate ValidWeight(w: int)
  {
    1 <= w <= 100
  }

  /** Key.IsValid: the weight is checked before the public key. */
  function KeyIsValid(cr: Crypto, ky: Key): (r: Outcome<KeysError>)
    ensures r.Pass? <==> ValidWeight(ky.w) && cr.publickeyIsValid(ky.k)
    ensures !ValidWeight(ky.w) ==> r == Fail(InvalidKeyWeight)
    ensures ValidWeight(ky.w) && r.Fail? ==> r == Fail(InvalidPublickey(ky.k))
  {
    if ky.w < 1 || ky.w > 100 then Fail(InvalidKeyWeight)
    else if !cr.publickeyIsValid(ky.k) then Fail(InvalidPublickey(ky.k))
    else Pass
  }

  /** Key.Bytes: the public key's string form followed by the weight. */
  function KeyBytes(ky: Key): (b: seq<byte>)
    ensures |b| == |ky.k.bytes| + 8
  {
    ky.k.bytes + UintToBytes(ky.w)
  }

  /** Both halves of a key can be read back from its bytes. */
  lemma KeyBytesDecode(ky: Key)
    ensures KeyBytes(ky)[..|ky.k.bytes|] == ky.k.bytes
    ensures FromBigEndian(KeyBytes(ky)[|ky.k.bytes|..]) == ky.w
  {
    assert KeyBytes(ky)[|ky.k.bytes|..] == UintToBytes(ky.w);
    UintToBytesRoundTrip(ky.w);
  }

  /** Key.Equal: same weight and same public key, i.e. the same key. */
  function KeyEqual(a: Key, b: Key): (r: bool)
    ensures r <==> a == b
  {
    a.w == b.w && a.k == b.k
  }

  // =====================================================================
  // The order used by sort.Slice in Keys.Bytes and Keys.Equal

  /** The `less` function given to sort.Slice: public-key bytes compare below. */
  predicate KeyLess(a: Key, b: Key)
  {
    Compare(a.k.bytes, b.k.bytes) < 0
  }

  /** What sort.Slice promises: no later element is less than an earlier one. */
  predicate SortedByPublickey(s: seq<Key>)
  {
    forall i, j :: 0 <= i < j < |s| ==> !KeyLess(s[j], s[i])
  }

  predicate DistinctPublickeys(s: seq<Key>)
  {
    forall i, j :: 0 <= i < j < |s| ==> s[i].k != s[j].k
  }

  /** Two keys neither of which is less than the other share their public key. */
  lemma KeyLessTotal(a: Key, b: Key)
    ensures !KeyLess(a, b) && !KeyLess(b, a) ==> a.k == b.k
  {
    CompareAntisymmetric(a.k.bytes, b.k.bytes);
    CompareZeroIffEqual(a.k.bytes, b.k.bytes);
  }

  lemma KeyLessTransitive(a: Key, b: Key, c: Key)
    requires KeyLess(a, b) && KeyLess(b, c)
    ensures KeyLess(a, c)
  {
    CompareTransitive(a.k.bytes, b.k.bytes, c.k.bytes);
  }

  /** "Not less" is transitive too (x <= y <= z). */
  lemma KeyNotLessTransitive(x: Key, y: Key, z: Key)
    requires !KeyLess(y, x) && !KeyLess(z, y)
    ensures !KeyLess(z, x)
  {
    CompareAntisymmetric(y.k.bytes, x.k.bytes);
    CompareAntisymmetric(z.k.bytes, y.k.bytes);
    CompareAntisymmetric(z.k.bytes, x.k.bytes);
    CompareAtMostTransitive(x.k.bytes, y.k.bytes, z.k.bytes);
  }

  lemma KeyLessIrreflexive(a: Key)
    ensures !KeyLess(a, a)
  {
    CompareZeroIffEqual(a.k.bytes, a.k.bytes);
  }

  /** A reference sort (insertion sort): the canonical order of a key list. */
  function Insert(x: Key, t: seq<Key>): (r: seq<Key>)
    ensures multiset(r) == multiset(t) + multiset{x}
  {
    if t == [] then [x]
    else if KeyLess(t[0], x) then
      assert t == [t[0]] + t[1..];
      [t[0]] + Insert(x, t[1..])
    else [x] + t
  }

  lemma {:induction false} InsertSorted(x: Key, t: seq<Key>)
    requires SortedByPublickey(t)
    ensures SortedByPublickey(Insert(x, t))
  {
    if t == [] {
    } else if KeyLess(t[0], x) {
      InsertSorted(x, t[1..]);
      var r := Insert(x, t[1..]);
      forall j | 0 <= j < |r|
        ensures !KeyLess(r[j], t[0])
      {
        assert r[j] in multiset(r);
        if r[j] == x {
          CompareAntisymmetric(t[0].k.bytes, x.k.bytes);
        } else {
          assert r[j] in t[1..];
        }
      }
    } else {
      var r := [x] + t;
      forall j | 0 < j < |r|
        ensures !KeyLess(r[j], x)
      {
        if j > 1 {
          KeyNotLessTransitive(x, t[0], r[j]);
        }
      }
    }
  }

  lemma {:induction false} InsertDistinct(x: Key, t: seq<Key>)
    requires DistinctPublickeys(t)
    requires forall y :: y in t ==> y.k != x.k
    ensures DistinctPublickeys(Insert(x, t))
  {
    if t != [] && KeyLess(t[0], x) {
      InsertDistinct(x, t[1..]);
      var r := Insert(x, t[1..]);
      forall j | 0 <= j < |r|
        ensures r[j].k != t[0].k
      {
        assert r[j] in multiset(r);
        if r[j] != x {
          assert r[j] in t[1..];
        }
      }
    }
  }

  /** The canonical, sorted permutation of a key list. */
  function SortKeys(s: seq<Key>): (t: seq<Key>)
    ensures multiset(t) == multiset(s)
    ensures SortedByPublickey(t)
  {
    if s == [] then []
    else
      assert s == [s[0]] + s[1..];
      var rest := SortKeys(s[1..]);
      InsertSorted(s[0], rest);
      Insert(s[0], rest)
  }

  lemma {:induction false} SortKeysDistinct(s: seq<Key>)
    requires DistinctPublickeys(s)
    ensures DistinctPublickeys(SortKeys(s))
  {
    if s != [] {
      SortKeysDistinct(s[1..]);
      var rest := SortKeys(s[1..]);
      forall y | y in rest
        ensures y.k != s[0].k
      {
        assert y in multiset(rest);
        assert y in s[1..];
      }
      InsertDistinct(s[0], rest);
    }
  }

  /** Two sorted arrangements of the same keys, the second without
      repeated public keys, start with the same key. */
  lemma SortedPermutationSameHead(s: seq<Key>, t: seq<Key>)
    requires |s| > 0
    requires SortedByPublickey(s) && SortedByPublickey(t) && DistinctPublickeys(t)
    requires multiset(s) == multiset(t)
    ensures |t| > 0 && s[0] == t[0]
  {
    assert s[0] in multiset(t);
    var j :| 0 <= j < |t| && t[j] == s[0];
    assert t[0] in multiset(s);
    var i :| 0 <= i < |s| && s[i] == t[0];
    if j != 0 {
      assert !KeyLess(t[j], t[0]);
      if i != 0 {
        assert !KeyLess(s[i], s[0]);
        KeyLessTotal(s[0], t[0]);
      }
      assert false;
    }
  }

  lemma MultisetTail(s: seq<Key>, t: seq<Key>)
    requires |s| > 0 && |t| > 0 && s[0] == t[0] && multiset(s) == multiset(t)
    ensures multiset(s[1..]) == multiset(t[1..])
  {
    assert s == [s[0]] + s[1..] && t == [t[0]] + t[1..];
    assert multiset(s[1..]) == multiset(s) - multiset{s[0]};
    assert multiset(t[1..]) == multiset(t) - multiset{t[0]};
  }

  /** A sorted list without repeated public keys is the only sorted
      arrangement of its elements. */
  lemma {:induction false} SortedPermutationUnique(s: seq<Key>, t: seq<Key>)
    requires SortedByPublickey(s) && SortedByPublickey(t) && DistinctPublickeys(t)
    requires multiset(s) == multiset(t)
    ensures s == t
  {
    if s == [] {
      assert |multiset(t)| == 0;
    } else {
      SortedPermutationSameHead(s, t);
      MultisetTail(s, t);
      SortedPermutationUnique(s[1..], t[1..]);
      assert s == [s[0]] + s[1..] && t == [t[0]] + t[1..];
    }
  }

  /** Whatever sorted arrangement sort.Slice produces of a list without
      repeated public keys, it is the canonical one. */
  lemma SortedPermutationIsSortKeys(s: seq<Key>, t: seq<Key>)
    requires DistinctPublickeys(s)
    requires SortedByPublickey(t) && multiset(t) == multiset(s)
    ensures t == SortKeys(s)
  {
    SortKeysDistinct(s);
    SortedPermutationUnique(t, SortKeys(s));
  }

  /** For keys with distinct public keys, the canonical order forgets the
      input order and nothing else. */
  lemma SortKeysCanonical(s1: seq<Key>, s2: seq<Key>)
    requires DistinctPublickeys(s1)
    ensures SortKeys(s1) == SortKeys(s2) <==> multiset(s1) == multiset(s2)
  {
    if multiset(s1) == multiset(s2) {
      SortedPermutationIsSortKeys(s1, SortKeys(s2));
    }
  }

  /** The position of a least key in a[lo..]. */
  method IndexOfLeast(a: array<Key>, lo: nat) returns (m: nat)
    requires lo < a.Length
    ensures lo <= m < a.Length
    ensures forall q :: lo <= q < a.Length ==> !KeyLess(a[q], a[m])
  {
    m := lo;
    KeyLessIrreflexive(a[lo]);
    for j := lo + 1 to a.Length
      invariant lo <= m < a.Length
      invariant forall q :: lo <= q < j ==> !KeyLess(a[q], a[m])
    {
      if KeyLess(a[j], a[m]) {
        forall q | lo <= q < j
          ensures !KeyLess(a[q], a[j])
        {
          if KeyLess(a[q], a[j]) {
            KeyLessTransitive(a[q], a[j], a[m]);
          }
        }
        KeyLessIrreflexive(a[j]);
        m := j;
      }
    }
  }

  method Swap(a: array<Key>, i: nat, j: nat)
    requires i < a.Length && j < a.Length
    modifies a
    ensures a[i] == old(a[j]) && a[j] == old(a[i])
    ensures forall k :: 0 <= k < a.Length && k != i && k != j ==> a[k] == old(a[k])
    ensures multiset(a[..]) == multiset(old(a[..]))
  {
    a[i], a[j] := a[j], a[i];
  }

  /** sort.Slice over the shared key slice, sorting in place by public-key
      bytes. Like sort.Slice it promises only a sorted permutation. */
  method SortByPublickey(a: array<Key>)
    modifies a
    ensures SortedByPublickey(a[..])
    ensures multiset(a[..]) == multiset(old(a[..]))
  {
    var n := a.Length;
    for i := 0 to n
      invariant multiset(a[..]) == multiset(old(a[..]))
      invariant forall p, q :: 0 <= p < q < i ==> !KeyLess(a[q], a[p])
      invariant forall p, q :: 0 <= p < i <= q < n ==> !KeyLess(a[q], a[p])
    {
      var m := IndexOfLeast(a, i);
      ghost var b := a[..];
      Swap(a, i, m);
      assert forall q :: i <= q < n ==> a[q] == b[q] || a[q] == b[i] || a[q] == b[m];
      assert forall q :: i < q < n ==> a[q] == b[q] || a[q] == b[i];
      assert a[i] == b[m];
    }
  }

  // =====================================================================
  // Keys.Bytes: the canonical serialisation

  /** The keys' bytes, one after the other. */
  function ConcatKeyBytes(t: seq<Key>): seq<byte>
  {
    if t == [] then [] else ConcatKeyBytes(t[..|t| - 1]) + KeyBytes(t[|t| - 1])
  }

  /** Keys.Bytes over an already sorted key list: every key's bytes, then
      the threshold. */
  function KeysBytes(t: seq<Key>, threshold: Uint): seq<byte>
  {
    ConcatKeyBytes(t) + UintToBytes(threshold)
  }

  function EncodedLength(t: seq<Key>): nat
  {
    if t == [] then 0 else EncodedLength(t[..|t| - 1]) + |t[|t| - 1].k.bytes| + 8
  }

  /** The serialisation has one (public key, weight) block per key and
      ends with the threshold, which can be read back. */
  lemma {:induction false} KeysBytesLayout(t: seq<Key>, threshold: Uint)
    ensures |ConcatKeyBytes(t)| == EncodedLength(t)
    ensures |KeysBytes(t, threshold)| == EncodedLength(t) + 8
    ensures FromBigEndian(KeysBytes(t, threshold)[EncodedLength(t)..]) == threshold
  {
    if t != [] {
      KeysBytesLayout(t[..|t| - 1], threshold);
    }
    assert KeysBytes(t, threshold)[EncodedLength(t)..] == UintToBytes(threshold);
    UintToBytesRoundTrip(threshold);
  }

  /** Keys.Bytes is insensitive to the order of the input keys: any two
      arrangements of the same keys serialise alike. */
  lemma KeysBytesOrderInsensitive(s1: seq<Key>, s2: seq<Key>, threshold: Uint)
    requires DistinctPublickeys(s1) && multiset(s1) == multiset(s2)
    ensures KeysBytes(SortKeys(s1), threshold) == KeysBytes(SortKeys(s2), threshold)
  {
    SortKeysCanonical(s1, s2);
  }

  // =====================================================================
  // Keys.IsValid as a function of the stored fields

  /** The per-key loop of Keys.IsValid: the first key that is invalid or
      whose public key was already `seen` decides the error. */
  function ScanKeys(cr: Crypto, s: seq<Key>, seen: set<seq<byte>>): (r: Outcome<KeysError>)
    ensures r.Fail? ==> r.error.InvalidKeyWeight? || r.error.InvalidPublickey? || r.error.DuplicatedKeys?
  {
    if s == [] then Pass
    else if KeyIsValid(cr, s[0]).Fail? then KeyIsValid(cr, s[0])
    else if s[0].k.bytes in seen then Fail(DuplicatedKeys)
    else ScanKeys(cr, s[1..], seen + {s[0].k.bytes})
  }

  function TotalWeight(s: seq<Key>): nat
  {
    if s == [] then 0 else TotalWeight(s[..|s| - 1]) + s[|s| - 1].w
  }

  /** Keys.IsValid, check by check in the source's order, for stored hash
      `h`, stored key list `s` and `threshold`. */
  function KeysCheck(cr: Crypto, h: seq<byte>, s: seq<Key>, threshold: Uint): (r: Outcome<KeysError>)
    ensures r.Pass? ==> && 1 <= threshold <= 100 && HashIsValid(h) && 1 <= |s| <= MAX_KEY_IN_KEYS
                        && DistinctPublickeys(s) && TotalWeight(s) >= threshold
    ensures r == Fail(HashNotMatched) ==> DistinctPublickeys(s) && TotalWeight(s) >= threshold
  {
    ScanKeysPassIff(cr, s, {});
    if threshold < 1 || threshold > 100 then Fail(InvalidThreshold(threshold))
    else if !HashIsValid(h) then Fail(InvalidHash)
    else if |s| < 1 then Fail(EmptyKeys)
    else if |s| > MAX_KEY_IN_KEYS then Fail(KeysOver(|s|))
    else if ScanKeys(cr, s, {}).Fail? then ScanKeys(cr, s, {})
    else if TotalWeight(s) < threshold then Fail(WeightUnderThreshold(TotalWeight(s), threshold))
    else if h != cr.sha256(KeysBytes(SortKeys(s), threshold)) then Fail(HashNotMatched)
    else Pass
  }

  /** What a well-formed key set is, stated without an order of checks. */
  predicate WellFormedKeys(cr: Crypto, s: seq<Key>, threshold: Uint)
  {
    && 1 <= threshold <= 100
    && 1 <= |s| <= MAX_KEY_IN_KEYS
    && (forall i :: 0 <= i < |s| ==> ValidWeight(s[i].w) && cr.publickeyIsValid(s[i].k))
    && DistinctPublickeys(s)
    && TotalWeight(s) >= threshold
  }

  lemma {:induction false} ScanKeysPassIff(cr: Crypto, s: seq<Key>, seen: set<seq<byte>>)
    ensures ScanKeys(cr, s, seen).Pass? <==>
      && (forall i :: 0 <= i < |s| ==> KeyIsValid(cr, s[i]).Pass? && s[i].k.bytes !in seen)
      && DistinctPublickeys(s)
  {
    if s != [] {
      ScanKeysPassIff(cr, s[1..], seen + {s[0].k.bytes});
      if ScanKeys(cr, s, seen).Pass? {
        forall i, j | 0 <= i < j < |s|
          ensures s[i].k != s[j].k
        {
          if i > 0 {
            assert s[i] == s[1..][i - 1] && s[j] == s[1..][j - 1];
          } else {
            assert s[j] == s[1..][j - 1];
          }
        }
      }
      if (forall i :: 0 <= i < |s| ==> KeyIsValid(cr, s[i]).Pass? && s[i].k.bytes !in seen)
         && DistinctPublickeys(s)
      {
        forall i | 0 <= i < |s| - 1
          ensures s[1..][i].k.bytes !in seen + {s[0].k.bytes}
        {
          assert s[1..][i] == s[i + 1];
          assert s[0].k != s[i + 1].k;
        }
      }
    }
  }

  /** Keys.IsValid accepts exactly the well-formed key sets whose stored
      hash is SHA-256 of their canonical bytes: a threshold outside [1, 100],
      no key or more than ten, an invalid key, two keys with one public key,
      weights summing below the threshold or a tampered hash are each
      rejected. */
  lemma KeysCheckPassIff(cr: Crypto, h: seq<byte>, s: seq<Key>, threshold: Uint)
    ensures KeysCheck(cr, h, s, threshold).Pass? <==>
      WellFormedKeys(cr, s, threshold) && h == cr.sha256(KeysBytes(SortKeys(s), threshold))
  {
    ScanKeysPassIff(cr, s, {});
  }

  /** A sorted key list whose hash was computed from its own bytes, as
      NewKeys does, is never rejected for its hash: it is accepted iff it is
      well formed. */
  lemma NewKeysHashAccepted(cr: Crypto, t: seq<Key>, threshold: Uint)
    requires SortedByPublickey(t)
    ensures var h := cr.sha256(KeysBytes(t, threshold));
      && KeysCheck(cr, h, t, threshold) != Fail(HashNotMatched)
      && KeysCheck(cr, h, t, threshold) != Fail(InvalidHash)
      && (KeysCheck(cr, h, t, threshold).Pass? <==> WellFormedKeys(cr, t, threshold))
  {
    var h := cr.sha256(KeysBytes(t, threshold));
    assert HashIsValid(h);
    ScanKeysPassIff(cr, t, {});
    if ScanKeys(cr, t, {}).Pass? {
      SortedPermutationIsSortKeys(t, t);
    }
    KeysCheckPassIff(cr, h, t, threshold);
  }

  lemma {:induction false} TotalWeightRemove(s: seq<Key>, p: nat)
    requires p < |s|
    ensures TotalWeight(s) == s[p].w + TotalWeight(s[..p] + s[p + 1..])
  {
    var n := |s|;
    if p == n - 1 {
      assert s[..p] + s[p + 1..] == s[..n - 1];
    } else {
      var u := s[..n - 1];
      TotalWeightRemove(u, p);
      var r := s[..p] + s[p + 1..];
      assert r[..|r| - 1] == u[..p] + u[p + 1..];
      assert r[|r| - 1] == s[n - 1];
    }
  }

  lemma {:induction false} TotalWeightPermutation(s: seq<Key>, t: seq<Key>)
    requires multiset(s) == multiset(t)
    ensures TotalWeight(s) == TotalWeight(t)
    decreases |s|
  {
    if s == [] {
      assert |t| == |multiset(t)| == 0;
    } else {
      var n := |s|;
      assert s[n - 1] in multiset(t);
      var p := IndexOf(t, s[n - 1]);
      var rest := t[..p] + t[p + 1..];
      MultisetRemoveAt(t, p);
      assert s == s[..n - 1] + [s[n - 1]];
      TotalWeightPermutation(s[..n - 1], rest);
      TotalWeightRemove(t, p);
    }
  }

  /** Removing one entry keeps a list free of repeated public keys. */
  lemma DistinctRemove(t: seq<Key>, p: nat)
    requires p < |t| && DistinctPublickeys(t)
    ensures DistinctPublickeys(t[..p] + t[p + 1..])
  {
  }

  /** A list whose entries have distinct public keys, and one more entry
      whose public key none of them has. */
  lemma DistinctInsertAt(t: seq<Key>, p: nat)
    requires p < |t|
    requires DistinctPublickeys(t[..p] + t[p + 1..])
    requires forall y :: y in t[..p] + t[p + 1..] ==> y.k != t[p].k
    ensures DistinctPublickeys(t)
  {
    var r := t[..p] + t[p + 1..];
    forall i, j | 0 <= i < j < |t|
      ensures t[i].k != t[j].k
    {
      if i == p {
        assert t[j] == r[j - 1];
      } else if j == p {
        assert t[i] == r[i];
      } else {
        var i' := if i < p then i else i - 1;
        var j' := if j < p then j else j - 1;
        assert t[i] == r[i'] && t[j] == r[j'];
      }
    }
  }

  /** In a list without repeated public keys, the head's public key is not
      found among any arrangement of the tail. */
  lemma HeadAvoidsTail(s: seq<Key>, rest: seq<Key>)
    requires |s| > 0 && DistinctPublickeys(s) && multiset(s[1..]) == multiset(rest)
    ensures forall y :: y in rest ==> y.k != s[0].k
  {
    forall y | y in rest
      ensures y.k != s[0].k
    {
      assert y in multiset(s[1..]);
      var q := IndexOf(s[1..], y);
      assert s[1..][q] == s[q + 1];
    }
  }

  lemma {:induction false} DistinctPermutation(s: seq<Key>, t: seq<Key>)
    requires multiset(s) == multiset(t) && DistinctPublickeys(s)
    ensures DistinctPublickeys(t)
    decreases |s|
  {
    if s != [] {
      assert s[0] in multiset(t);
      var p := IndexOf(t, s[0]);
      var rest := t[..p] + t[p + 1..];
      assert multiset(s[1..]) == multiset(rest) by {
        MultisetRemoveAt(t, p);
        assert s == [s[0]] + s[1..];
      }
      assert DistinctPublickeys(s[1..]) by {
        DistinctRemove(s, 0);
        assert s[..0] + s[1..] == s[1..];
      }
      DistinctPermutation(s[1..], rest);
      HeadAvoidsTail(s, rest);
      DistinctInsertAt(t, p);
    }
  }

  /** Whether a key list is well formed does not depend on its order, so
      NewKeys's verdict is the same for every arrangement of the keys. */
  lemma WellFormedKeysPermutation(cr: Crypto, s: seq<Key>, t: seq<Key>, threshold: Uint)
    requires multiset(s) == multiset(t)
    ensures WellFormedKeys(cr, s, threshold) <==> WellFormedKeys(cr, t, threshold)
  {
    TotalWeightPermutation(s, t);
    assert |s| == |multiset(s)| == |t|;
    if DistinctPublickeys(s) {
      DistinctPermutation(s, t);
    }
    if DistinctPublickeys(t) {
      DistinctPermutation(t, s);
    }
    forall i | 0 <= i < |t|
      ensures t[i] in multiset(s)
    {
    }
    forall i | 0 <= i < |s|
      ensures s[i] in multiset(t)
    {
    }
  }

  // =====================================================================
  // Keys.Key: lookup by public key

  /** The first key of `s` with public key `k`, if any. */
  function LookupKey(s: seq<Key>, k: Publickey): (r: Option<Key>)
    ensures r.Some? ==> r.value in s && r.value.k == k
    ensures r.None? ==> forall ky :: ky in s ==> ky.k != k
  {
    if s == [] then None
    else if s[0].k == k then Some(s[0])
    else LookupKey(s[1..], k)
  }

  lemma {:induction false} LookupKeySpec(s: seq<Key>, k: Publickey)
    ensures LookupKey(s, k).Some? <==> exists i :: 0 <= i < |s| && s[i].k == k
    ensures LookupKey(s, k).Some? ==> LookupKey(s, k).value in s && LookupKey(s, k).value.k == k
  {
    if s != [] {
      LookupKeySpec(s[1..], k);
      if s[0].k != k && LookupKey(s, k).None? {
        forall i | 0 < i < |s|
          ensures s[i].k != k
        {
          assert s[i] == s[1..][i - 1];
        }
      }
    }
  }

  /** In a key set without repeated public keys, looking a member's public
      key up finds exactly that member. */
  lemma {:induction false} LookupKeyDistinct(s: seq<Key>, i: nat)
    requires i < |s| && DistinctPublickeys(s)
    ensures LookupKey(s, s[i].k) == Some(s[i])
  {
    if i > 0 {
      assert s[0].k != s[i].k;
      assert s[1..][i - 1] == s[i];
      LookupKeyDistinct(s[1..], i - 1);
    }
  }

  // =====================================================================
  // checkThreshold as a function of the signatures and the key set

  /** The weight one signature entry contributes: its signer's weight. */
  function SignerWeight(s: seq<Key>, f: FactSign): nat
  {
    match LookupKey(s, f.signer)
    case Some(ky) => ky.w
    case None => 0
  }

  /** The weights of the signers, one per signature entry. */
  function MatchedWeight(fs: seq<FactSign>, s: seq<Key>): nat
  {
    if fs == [] then 0 else SignerWeight(s, fs[0]) + MatchedWeight(fs[1..], s)
  }

  function FirstUnknownSigner(fs: seq<FactSign>, s: seq<Key>): Option<Publickey>
  {
    if fs == [] then None
    else if LookupKey(s, fs[0].signer).None? then Some(fs[0].signer)
    else FirstUnknownSigner(fs[1..], s)
  }

  /** checkThreshold: the first unknown signer fails the check; otherwise
      the weight sum, accumulated in a Go `uint`, must reach the threshold. */
  function ThresholdCheck(fs: seq<FactSign>, s: seq<Key>, threshold: Uint): (r: Outcome<KeysError>)
    ensures r.Pass? ==> forall f :: f in fs ==> LookupKey(s, f.signer).Some?
    ensures r.Fail? ==> r.error.UnknownKey? || r.error.NotPassedThreshold?
    ensures r.Fail? && r.error.UnknownKey? ==>
      exists i :: 0 <= i < |fs| && fs[i].signer == r.error.signer && LookupKey(s, fs[i].signer).None?
    ensures r.Fail? && r.error.NotPassedThreshold? ==> r.error.sum < threshold
  {
    FirstUnknownSignerSpec(fs, s);
    match FirstUnknownSigner(fs, s)
    case Some(signer) => Fail(UnknownKey(signer))
    case None =>
      var sum := MatchedWeight(fs, s) % UINT_MODULUS;
      if sum < threshold then Fail(NotPassedThreshold(sum, threshold)) else Pass
  }

  lemma {:induction false} FirstUnknownSignerSpec(fs: seq<FactSign>, s: seq<Key>)
    ensures FirstUnknownSigner(fs, s).None? <==>
      forall f :: f in fs ==> LookupKey(s, f.signer).Some?
    ensures FirstUnknownSigner(fs, s).Some? ==>
      exists i :: 0 <= i < |fs| && fs[i].signer == FirstUnknownSigner(fs, s).value
        && LookupKey(s, fs[i].signer).None?
  {
    if fs != [] {
      FirstUnknownSignerSpec(fs[1..], s);
      if FirstUnknownSigner(fs, s).Some? && LookupKey(s, fs[0].signer).Some? {
        var i :| 0 <= i < |fs[1..]| && fs[1..][i].signer == FirstUnknownSigner(fs, s).value
          && LookupKey(s, fs[1..][i].signer).None?;
        assert fs[i + 1] == fs[1..][i];
      }
      assert fs == [fs[0]] + fs[1..];
    }
  }

  /** An unknown signer anywhere fails the check as UnknownKey, whatever the
      weights of the other signers. */
  lemma ThresholdCheckUnknownSigner(fs: seq<FactSign>, s: seq<Key>, threshold: Uint, i: nat)
    requires i < |fs| && LookupKey(s, fs[i].signer).None?
    ensures ThresholdCheck(fs, s, threshold).Fail?
    ensures ThresholdCheck(fs, s, threshold).error.UnknownKey?
  {
    FirstUnknownSignerSpec(fs, s);
  }

  /** When the sum does not wrap around, the check passes iff every signer
      is in the key set and their weights reach the threshold. */
  lemma ThresholdCheckPassIff(fs: seq<FactSign>, s: seq<Key>, threshold: Uint)
    requires MatchedWeight(fs, s) < UINT_MODULUS
    ensures ThresholdCheck(fs, s, threshold).Pass? <==>
      && (forall f :: f in fs ==> LookupKey(s, f.signer).Some?)
      && MatchedWeight(fs, s) >= threshold
  {
    FirstUnknownSignerSpec(fs, s);
  }

  /** Signers of a key set whose weights are at most 100 contribute at most
      100 each, so fewer than 2^57 signature entries never wrap the sum. */
  lemma {:induction false} MatchedWeightBound(fs: seq<FactSign>, s: seq<Key>)
    requires forall ky :: ky in s ==> ky.w <= 100
    ensures MatchedWeight(fs, s) <= 100 * |fs|
  {
    if fs != [] {
      MatchedWeightBound(fs[1..], s);
      LookupKeySpec(s, fs[0].signer);
    }
  }

  lemma {:induction false} MatchedWeightRemove(fs: seq<FactSign>, s: seq<Key>, p: nat)
    requires p < |fs|
    ensures MatchedWeight(fs, s) == SignerWeight(s, fs[p]) + MatchedWeight(fs[..p] + fs[p + 1..], s)
  {
    if p == 0 {
      assert fs[..0] + fs[1..] == fs[1..];
    } else {
      MatchedWeightRemove(fs[1..], s, p - 1);
      assert fs[..p] + fs[p + 1..] == [fs[0]] + (fs[1..][..p - 1] + fs[1..][p..]);
    }
  }

  lemma MultisetRemoveAt<T>(xs: seq<T>, p: nat)
    requires p < |xs|
    ensures multiset(xs[..p] + xs[p + 1..]) == multiset(xs) - multiset{xs[p]}
  {
    assert xs == xs[..p] + [xs[p]] + xs[p + 1..];
  }

  lemma IndexOf<T>(xs: seq<T>, x: T) returns (p: nat)
    requires x in xs
    ensures p < |xs| && xs[p] == x
  {
    p :| 0 <= p < |xs| && xs[p] == x;
  }

  lemma {:induction false} MatchedWeightPermutation(fs1: seq<FactSign>, fs2: seq<FactSign>, s: seq<Key>)
    requires multiset(fs1) == multiset(fs2)
    ensures MatchedWeight(fs1, s) == MatchedWeight(fs2, s)
    decreases |fs1|
  {
    if fs1 == [] {
      assert |fs2| == |multiset(fs2)| == 0;
    } else {
      assert fs1[0] in multiset(fs2);
      var p := IndexOf(fs2, fs1[0]);
      var rest := fs2[..p] + fs2[p + 1..];
      MultisetRemoveAt(fs2, p);
      assert fs1 == [fs1[0]] + fs1[1..];
      MatchedWeightPermutation(fs1[1..], rest, s);
      MatchedWeightRemove(fs2, s, p);
    }
  }

  /** Whether the check passes does not depend on the order of the
      signature entries. */
  lemma ThresholdCheckOrderInsensitive(fs1: seq<FactSign>, fs2: seq<FactSign>, s: seq<Key>, threshold: Uint)
    requires multiset(fs1) == multiset(fs2)
    ensures ThresholdCheck(fs1, s, threshold).Pass? <==> ThresholdCheck(fs2, s, threshold).Pass?
  {
    FirstUnknownSignerSpec(fs1, s);
    FirstUnknownSignerSpec(fs2, s);
    MatchedWeightPermutation(fs1, fs2, s);
    forall f | f in fs1
      ensures f in fs2
    {
      assert f in multiset(fs1);
    }
    forall f | f in fs2
      ensures f in fs1
    {
      assert f in multiset(fs2);
    }
  }

  /** Modular addition as Go's `uint` performs it. */
  lemma ModAddLeft(a: nat, b: nat)
    ensures (a % UINT_MODULUS + b) % UINT_MODULUS == (a + b) % UINT_MODULUS
  {
  }

  /** TotalWeight of a list of valid keys is at most 100 per key. */
  lemma {:induction false} TotalWeightBound(s: seq<Key>)
    requires forall i :: 0 <= i < |s| ==> ValidWeight(s[i].w)
    ensures TotalWeight(s) <= 100 * |s|
  {
    if s != [] {
      TotalWeightBound(s[..|s| - 1]);
    }
  }

  // =====================================================================
  // The key set object

  /** Keys: the stored hash, the key slice (shared with whoever built the
      key set, and sorted in place by Bytes and Equal) and the threshold. */
  class Keys {
    var h: seq<byte>
    const keys: array<Key>
    const threshold: Uint

    constructor (h: seq<byte>, keys: array<Key>, threshold: Uint)
      ensures this.h == h && this.keys == keys && this.threshold == threshold
    {
      this.h := h;
      this.keys := keys;
      this.threshold := threshold;
    }

    /** Keys.Bytes: sorts the shared key slice by public key, then emits
        every key's bytes followed by the threshold. For keys without
        repeated public keys the new order is the canonical one. */
    method Bytes() returns (b: seq<byte>)
      modifies keys
      ensures SortedByPublickey(keys[..])
      ensures multiset(keys[..]) == multiset(old(keys[..]))
      ensures DistinctPublickeys(old(keys[..])) ==> keys[..] == SortKeys(old(keys[..]))
      ensures b == KeysBytes(keys[..], threshold)
    {
      SortByPublickey(keys);
      if DistinctPublickeys(old(keys[..])) {
        SortedPermutationIsSortKeys(old(keys[..]), keys[..]);
      }
      b := [];
      for i := 0 to keys.Length
        invariant b == ConcatKeyBytes(keys[..i])
      {
        assert keys[..i + 1][..i] == keys[..i];
        b := b + KeyBytes(keys[i]);
      }
      assert keys[..keys.Length] == keys[..];
      b := b + UintToBytes(threshold);
    }

    /** Keys.GenerateHash: SHA-256 of Bytes (which sorts the slice). */
    method GenerateHash(cr: Crypto) returns (d: Digest)
      modifies keys
      ensures SortedByPublickey(keys[..])
      ensures multiset(keys[..]) == multiset(old(keys[..]))
      ensures DistinctPublickeys(old(keys[..])) ==> keys[..] == SortKeys(old(keys[..]))
      ensures d == cr.sha256(KeysBytes(keys[..], threshold))
    {
      var b := Bytes();
      d := cr.sha256(b);
    }

    /** Keys.IsValid: the checks of KeysCheck in the source's order. The
        slice is sorted only when the hash check is reached, which needs
        every public key to be distinct, so the order it leaves is the
        canonical one. */
    method IsValid(cr: Crypto) returns (r: Outcome<KeysError>)
      modifies keys
      ensures r == KeysCheck(cr, old(h), old(keys[..]), threshold)
      ensures keys[..] == old(keys[..])
        || (DistinctPublickeys(old(keys[..])) && keys[..] == SortKeys(old(keys[..])))
    {
      if threshold < 1 || threshold > 100 {
        return Fail(InvalidThreshold(threshold));
      }
      if !HashIsValid(h) {
        return Fail(InvalidHash);
      }
      var n := keys.Length;
      if n < 1 {
        return Fail(EmptyKeys);
      } else if n > MAX_KEY_IN_KEYS {
        return Fail(KeysOver(n));
      }

      r := ScanEach(cr);
      if r.Fail? {
        return r;
      }
      ScanKeysPassIff(cr, keys[..], {});
      var totalWeight := SumWeights();

      if totalWeight < threshold {
        return Fail(WeightUnderThreshold(totalWeight, threshold));
      }

      var d := GenerateHash(cr);
      if h != d {
        return Fail(HashNotMatched);
      }
      return Pass;
    }

    /** The per-key loop of Keys.IsValid, with the set of public keys seen
        so far. */
    method ScanEach(cr: Crypto) returns (r: Outcome<KeysError>)
      ensures r == ScanKeys(cr, keys[..], {})
    {
      var seen: set<seq<byte>> := {};
      for i := 0 to keys.Length
        invariant ScanKeys(cr, keys[..], {}) == ScanKeys(cr, keys[i..], seen)
      {
        assert keys[i..][1..] == keys[i + 1..];
        var key := keys[i];
        var err := KeyIsValid(cr, key);
        if err.Fail? {
          return err;
        } else if key.k.bytes in seen {
          return Fail(DuplicatedKeys);
        } else {
          seen := seen + {key.k.bytes};
        }
      }
      return Pass;
    }

    /** The weight sum of Keys.IsValid in a Go `uint`; valid weights never
        wrap it. */
    method SumWeights() returns (totalWeight: Uint)
      requires forall i :: 0 <= i < keys.Length ==> ValidWeight(keys[i].w)
      requires keys.Length <= MAX_KEY_IN_KEYS
      ensures totalWeight == TotalWeight(keys[..])
    {
      totalWeight := 0;
      for i := 0 to keys.Length
        invariant totalWeight == TotalWeight(keys[..i]) <= 100 * i
      {
        assert keys[..i + 1][..i] == keys[..i];
        totalWeight := (totalWeight + keys[i].w) % UINT_MODULUS;
      }
      assert keys[..keys.Length] == keys[..];
    }

    /** Keys.Key: the first key with public key `k`; a zero Key and false
        when there is none. */
    method GetKey(k: Publickey) returns (ky: Key, found: bool)
      ensures found <==> LookupKey(keys[..], k).Some?
      ensures found ==> ky == LookupKey(keys[..], k).value
      ensures !found ==> ky == Key(Publickey([]), 0)
    {
      for i := 0 to keys.Length
        invariant LookupKey(keys[..], k) == LookupKey(keys[i..], k)
      {
        assert keys[i..][1..] == keys[i + 1..];
        if keys[i].k == k {
          return keys[i], true;
        }
      }
      return Key(Publickey([]), 0), false;
    }

    /** Keys.Equal: the same threshold and, after sorting both slices in
        place, the same keys position by position. When one side has no
        repeated public keys this is: the same threshold and the same keys
        in any order. */
    method Equal(b: Keys) returns (r: bool)
      modifies keys, b.keys
      ensures threshold != b.threshold || keys.Length != b.keys.Length ==>
        !r && keys[..] == old(keys[..]) && b.keys[..] == old(b.keys[..])
      ensures threshold == b.threshold && keys.Length == b.keys.Length ==>
        && SortedByPublickey(keys[..]) && multiset(keys[..]) == multiset(old(keys[..]))
        && SortedByPublickey(b.keys[..]) && multiset(b.keys[..]) == multiset(old(b.keys[..]))
        && (r <==> keys[..] == b.keys[..])
      ensures DistinctPublickeys(old(keys[..])) ==>
        (r <==> threshold == b.threshold && multiset(old(keys[..])) == multiset(old(b.keys[..])))
      ensures keys == b.keys && threshold == b.threshold ==> r
    {
      if threshold != b.threshold {
        return false;
      }
      if keys.Length != b.keys.Length {
        assert |multiset(old(keys[..]))| != |multiset(old(b.keys[..]))|;
        return false;
      }
      SortByPublickey(keys);
      ghost var mid := keys[..];
      SortByPublickey(b.keys);
      if keys == b.keys {
        assert multiset(keys[..]) == multiset(mid);
      }
      r := true;
      for i := 0 to keys.Length
        invariant r == (keys[..i] == b.keys[..i])
      {
        if !KeyEqual(keys[i], b.keys[i]) {
          assert keys[..i + 1][i] != b.keys[..i + 1][i];
          r := false;
          break;
        }
        assert keys[..i + 1] == keys[..i] + [keys[i]];
        assert b.keys[..i + 1] == b.keys[..i] + [b.keys[i]];
      }
      if r {
        assert keys[..] == keys[..keys.Length];
        assert b.keys[..] == b.keys[..b.keys.Length];
      } else if DistinctPublickeys(old(keys[..])) && multiset(old(keys[..])) == multiset(old(b.keys[..])) {
        SortedPermutationIsSortKeys(old(keys[..]), keys[..]);
        SortedPermutationIsSortKeys(old(keys[..]), b.keys[..]);
      }
    }
  }

  /** NewKey: a key and its validity. */
  function NewKey(cr: Crypto, k: Publickey, w: Uint): (r: (Key, Outcome<KeysError>))
    ensures r.0.k == k && r.0.w == w
    ensures r.1.Pass? <==> ValidWeight(w) && cr.publickeyIsValid(k)
  {
    (Key(k, w), KeyIsValid(cr, Key(k, w)))
  }

  /** NewKeys: wraps the caller's key slice, stores SHA-256 of its bytes
      (which sorts the slice), and reports Keys.IsValid. The verdict is
      that of WellFormedKeys on the keys as given, never a hash mismatch. */
  method NewKeys(cr: Crypto, keys: array<Key>, threshold: Uint) returns (ks: Keys, err: Outcome<KeysError>)
    modifies keys
    ensures fresh(ks) && ks.keys == keys && ks.threshold == threshold
    ensures SortedByPublickey(keys[..]) && multiset(keys[..]) == multiset(old(keys[..]))
    ensures ks.h == cr.sha256(KeysBytes(keys[..], threshold))
    ensures err == KeysCheck(cr, ks.h, keys[..], threshold)
    ensures err != Fail(HashNotMatched) && err != Fail(InvalidHash)
    ensures err.Pass? <==> WellFormedKeys(cr, old(keys[..]), threshold)
  {
    ks := new Keys([], keys, threshold);
    var d := ks.GenerateHash(cr);
    ks.h := d;
    ghost var t := keys[..];
    NewKeysHashAccepted(cr, t, threshold);
    WellFormedKeysPermutation(cr, old(keys[..]), t, threshold);
    err := ks.IsValid(cr);
    if keys[..] != t {
      SortedPermutationIsSortKeys(t, t);
    }
  }

  /** checkThreshold: every signer must be in the key set, and the sum of
      their weights, accumulated in a Go `uint`, must reach the threshold. */
  method CheckThreshold(fs: seq<FactSign>, keys: Keys) returns (r: Outcome<KeysError>)
    ensures r == ThresholdCheck(fs, keys.keys[..], keys.threshold)
  {
    ghost var s := keys.keys[..];
    var sum: Uint := 0;
    for i := 0 to |fs|
      invariant FirstUnknownSigner(fs, s) == FirstUnknownSigner(fs[i..], s)
      invariant (sum + MatchedWeight(fs[i..], s)) % UINT_MODULUS == MatchedWeight(fs, s) % UINT_MODULUS
    {
      assert fs[i..][1..] == fs[i + 1..];
      var ky, found := keys.GetKey(fs[i].signer);
      if found {
        ModAddLeft(sum + ky.w, MatchedWeight(fs[i + 1..], s));
        sum := (sum + ky.w) % UINT_MODULUS;
      } else {
        return Fail(UnknownKey(fs[i].signer));
      }
    }
    if sum < keys.threshold {
      return Fail(NotPassedThreshold(sum, keys.threshold));
    }
    return Pass;
  }
}
