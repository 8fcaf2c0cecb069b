/**
 * The representation-independent request id of `ICRequest.id`: six
 * (hash(field name), hash(field value)) pairs, sorted by the name hash with a
 * hand-written comparator, concatenated and hashed once more.
 */
module RequestId {
  import opened Common
  import opened ByteBuffers

  /** Kotlin's `Pair(first, second)` of a name hash and a value hash. */
  datatype HashPair = HashPair(name: Digest, value: Digest)

  /** The exceptions computing or encoding a request can raise. */
  datatype RequestFailure =
    | IndexOutOfBounds   // the comparator read past the end of a key
    | NullSenderId       // `sender.id!!` on a principal without bytes

  // ---------------------------------------------------------------------
  // The comparator
  // ---------------------------------------------------------------------

  /** `UByte.compareTo`: -1, 0 or 1 on the unsigned values. */
  function CompareUnsigned(a: byte, b: byte): (c: int)
    ensures c == 0 <==> a == b
    ensures c < 0 <==> a < b
    ensures -1 <= c <= 1
  {
    if a < b then -1 else if a > b then 1 else 0
  }

  /**
   * What the comparator lambda yields for two keys: the byte comparison at
   * the first index where they differ, or an out-of-bounds failure once the
   * index `0..k1.size` reaches the end of either key first.
   */
  function KeyCompare(k1: seq<byte>, k2: seq<byte>): (r: Result<int, RequestFailure>)
    ensures r.Err? ==> r.error == IndexOutOfBounds
    decreases |k1|
  {
    if |k1| == 0 || |k2| == 0 then Err(IndexOutOfBounds)
    else if k1[0] != k2[0] then Ok(CompareUnsigned(k1[0], k2[0]))
    else KeyCompare(k1[1..], k2[1..])
  }

  /** The comparator lambda: a loop over `0..k1.size` (inclusive) with `break`. */
  method CompareKeys(k1: seq<byte>, k2: seq<byte>) returns (c: Result<int, RequestFailure>)
    ensures c == KeyCompare(k1, k2)
  {
    var result := 0;
    var i := 0;
    while true
      invariant 0 <= i <= |k1| && i <= |k2|
      invariant KeyCompare(k1, k2) == KeyCompare(k1[i..], k2[i..])
      decreases |k1| - i
    {
      if i >= |k1| || i >= |k2| {
        // `k1[i]` or `k2[i]` throws ArrayIndexOutOfBoundsException.
        return Err(IndexOutOfBounds);
      }
      result := CompareUnsigned(k1[i], k2[i]);
      if result != 0 {
        break;
      }
      assert k1[i..][1..] == k1[i + 1..] && k2[i..][1..] == k2[i + 1..];
      i := i + 1;
    }
    c := Ok(result);
  }

  /** `a` is a (not necessarily proper) prefix of `b`. */
  predicate IsPrefix(a: seq<byte>, b: seq<byte>)
  {
    |a| <= |b| && b[..|a|] == a
  }

  /** Unsigned byte-lexicographic order, the standard reference definition. */
  predicate LexLess(a: seq<byte>, b: seq<byte>)
    decreases |a|
  {
    if a == [] then b != []
    else if b == [] then false
    else a[0] < b[0] || (a[0] == b[0] && LexLess(a[1..], b[1..]))
  }

  /**
   * The comparator is safe exactly when neither key is a prefix of the other,
   * i.e. when they differ at an index below both lengths; it then agrees with
   * unsigned lexicographic order and never answers 0.
   */
  lemma {:induction false} KeyCompareSpec(k1: seq<byte>, k2: seq<byte>)
    ensures KeyCompare(k1, k2).Err? <==> IsPrefix(k1, k2) || IsPrefix(k2, k1)
    ensures KeyCompare(k1, k2).Ok? ==>
      && KeyCompare(k1, k2).value != 0
      && (KeyCompare(k1, k2).value < 0 <==> LexLess(k1, k2))
      && (KeyCompare(k1, k2).value > 0 <==> LexLess(k2, k1))
    decreases |k1|
  {
    if |k1| == 0 || |k2| == 0 {
    } else if k1[0] != k2[0] {
    } else {
      KeyCompareSpec(k1[1..], k2[1..]);
      assert IsPrefix(k1, k2) <==> IsPrefix(k1[1..], k2[1..]) by {
        if |k1| <= |k2| {
          assert k2[..|k1|] == [k2[0]] + k2[1..][..|k1| - 1];
          assert k1 == [k1[0]] + k1[1..];
        }
      }
      assert IsPrefix(k2, k1) <==> IsPrefix(k2[1..], k1[1..]) by {
        if |k2| <= |k1| {
          assert k1[..|k2|] == [k1[0]] + k1[1..][..|k2| - 1];
          assert k2 == [k2[0]] + k2[1..];
        }
      }
    }
  }

  /** For two digests the comparator fails exactly on equal keys. */
  lemma DigestCompare(k1: Digest, k2: Digest)
    ensures KeyCompare(k1, k2).Err? <==> k1 == k2
    ensures KeyCompare(k1, k2).Ok? ==>
      KeyCompare(k1, k2).value != 0 &&
      (KeyCompare(k1, k2).value < 0 <==> LexLess(k1, k2)) &&
      (KeyCompare(k1, k2).value > 0 <==> LexLess(k2, k1))
  {
    KeyCompareSpec(k1, k2);
  }

  lemma {:induction false} LexLessIrreflexive(a: seq<byte>)
    ensures !LexLess(a, a)
    decreases |a|
  {
    if a != [] {
      LexLessIrreflexive(a[1..]);
    }
  }

  lemma {:induction false} LexLessTransitive(a: seq<byte>, b: seq<byte>, c: seq<byte>)
    requires LexLess(a, b) && LexLess(b, c)
    ensures LexLess(a, c)
    decreases |a|
  {
    if a != [] && b != [] && c != [] && a[0] == b[0] == c[0] {
      LexLessTransitive(a[1..], b[1..], c[1..]);
    }
  }

  lemma {:induction false} LexLessTotal(a: seq<byte>, b: seq<byte>)
    requires |a| == |b| && a != b
    ensures LexLess(a, b) || LexLess(b, a)
    decreases |a|
  {
    if a[0] == b[0] {
      assert a == [a[0]] + a[1..] && b == [b[0]] + b[1..];
      LexLessTotal(a[1..], b[1..]);
    }
  }

  lemma LexLessAsymmetric(a: seq<byte>, b: seq<byte>)
    requires LexLess(a, b)
    ensures !LexLess(b, a)
  {
    if LexLess(b, a) {
      LexLessTransitive(a, b, a);
      LexLessIrreflexive(a);
    }
  }

  // ---------------------------------------------------------------------
  // `sortedWith`
  // ---------------------------------------------------------------------

  function Names(t: seq<HashPair>): (ns: seq<Digest>)
    ensures |ns| == |t| && forall i :: 0 <= i < |t| ==> ns[i] == t[i].name
  {
    seq(|t|, i requires 0 <= i < |t| => t[i].name)
  }

  predicate DistinctNames(t: seq<HashPair>)
  {
    forall i, j :: 0 <= i < j < |t| ==> t[i].name != t[j].name
  }

  /** Strictly increasing by name hash; the value hash plays no part. */
  predicate StrictlySorted(s: seq<HashPair>)
  {
    forall i, j :: 0 <= i < j < |s| ==> LexLess(s[i].name, s[j].name)
  }

  /**
   * One insertion step of a stable sort: `p` goes before the first element
   * the comparator ranks above it.
   */
  function Insert(p: HashPair, s: seq<HashPair>): Result<seq<HashPair>, RequestFailure>
    decreases |s|
  {
    if s == [] then Ok([p])
    else match KeyCompare(s[0].name, p.name)
      case Err(e) => Err(e)
      case Ok(c) =>
        if c > 0 then Ok([p] + s)
        else match Insert(p, s[1..])
          case Err(e) => Err(e)
          case Ok(r) => Ok([s[0]] + r)
  }

  /**
   * `traversed.sortedWith(comparator)`. The library's TimSort is not part
   * of this model; this stable insertion sort stands for it, and when the
   * names are distinct the result is the same for every correct sort
   * (`StrictlySortedUnique`).
   */
  function SortedWith(t: seq<HashPair>): Result<seq<HashPair>, RequestFailure>
    decreases |t|
  {
    if t == [] then Ok([])
    else match SortedWith(t[..|t| - 1])
      case Err(e) => Err(e)
      case Ok(s) => Insert(t[|t| - 1], s)
  }

  lemma SortedTail(s: seq<HashPair>)
    requires StrictlySorted(s) && s != []
    ensures StrictlySorted(s[1..])
    ensures forall j :: 1 <= j < |s| ==> LexLess(s[0].name, s[j].name)
  {
    assert forall i, j :: 0 <= i < j < |s| - 1 ==> s[1..][i] == s[i + 1] && s[1..][j] == s[j + 1];
  }

  /** `p` ranked below the head of a sorted list goes in front of it. */
  lemma InsertInFront(p: HashPair, s: seq<HashPair>)
    requires StrictlySorted(s) && s != [] && LexLess(p.name, s[0].name)
    ensures p.name !in Names(s)
    ensures StrictlySorted([p] + s)
  {
    SortedTail(s);
    forall j | 0 <= j < |s| ensures LexLess(p.name, s[j].name) {
      if j > 0 { LexLessTransitive(p.name, s[0].name, s[j].name); }
    }
    forall j | 0 <= j < |s| ensures Names(s)[j] != p.name {
      LexLessIrreflexive(p.name);
    }
    var r := [p] + s;
    forall i, j | 0 <= i < j < |r| ensures LexLess(r[i].name, r[j].name) {
      assert r[j] == s[j - 1];
      if i > 0 { assert r[i] == s[i - 1]; }
    }
  }

  /** The head of a sorted list ranked below `p` stays in front. */
  lemma KeepHead(p: HashPair, s: seq<HashPair>, r': seq<HashPair>)
    requires StrictlySorted(s) && s != [] && LexLess(s[0].name, p.name)
    requires StrictlySorted(r') && multiset(r') == multiset(s[1..]) + multiset{p}
    ensures StrictlySorted([s[0]] + r')
    ensures multiset([s[0]] + r') == multiset(s) + multiset{p}
  {
    SortedTail(s);
    var tail := s[1..];
    assert s == [s[0]] + tail;
    forall x | x in r' ensures LexLess(s[0].name, x.name) {
      assert x in multiset(r');
      if x != p {
        assert x in multiset(tail);
        var j :| 0 <= j < |tail| && tail[j] == x;
        assert s[j + 1] == x;
      }
    }
    var r := [s[0]] + r';
    forall i, j | 0 <= i < j < |r| ensures LexLess(r[i].name, r[j].name) {
      assert r[j] == r'[j - 1] && r[j] in r';
      if i > 0 { assert r[i] == r'[i - 1]; }
    }
  }

  lemma NamesCons(s: seq<HashPair>, n: Digest)
    requires s != []
    ensures n in Names(s) <==> n == s[0].name || n in Names(s[1..])
  {
    if n in Names(s[1..]) {
      var j :| 0 <= j < |s| - 1 && Names(s[1..])[j] == n;
      assert Names(s)[j + 1] == n;
    }
    if n in Names(s) && n != s[0].name {
      var j :| 0 <= j < |s| && Names(s)[j] == n;
      assert Names(s[1..])[j - 1] == n;
    }
  }

  lemma {:induction false} InsertSpec(p: HashPair, s: seq<HashPair>)
    requires StrictlySorted(s)
    ensures Insert(p, s).Ok? <==> p.name !in Names(s)
    ensures Insert(p, s).Err? ==> Insert(p, s).error == IndexOutOfBounds
    ensures Insert(p, s).Ok? ==>
      multiset(Insert(p, s).value) == multiset(s) + multiset{p} && StrictlySorted(Insert(p, s).value)
    decreases |s|
  {
    if s == [] {
      assert Insert(p, s) == Ok([p]);
    } else {
      DigestCompare(s[0].name, p.name);
      var k := KeyCompare(s[0].name, p.name);
      NamesCons(s, p.name);
      if k.Err? {
        assert Insert(p, s) == Err(IndexOutOfBounds);
      } else if k.value > 0 {
        assert Insert(p, s) == Ok([p] + s);
        InsertInFront(p, s);
      } else {
        var tail := s[1..];
        SortedTail(s);
        InsertSpec(p, tail);
        var rt := Insert(p, tail);
        if rt.Ok? {
          assert Insert(p, s) == Ok([s[0]] + rt.value);
          KeepHead(p, s, rt.value);
        } else {
          assert Insert(p, s) == rt;
        }
      }
    }
  }

  lemma PermutationNames(a: seq<HashPair>, b: seq<HashPair>, n: Digest)
    requires multiset(a) == multiset(b)
    ensures n in Names(a) <==> n in Names(b)
  {
    if n in Names(a) {
      var i :| 0 <= i < |a| && Names(a)[i] == n;
      assert a[i] in multiset(b);
      var j :| 0 <= j < |b| && b[j] == a[i];
      assert Names(b)[j] == n;
    }
    if n in Names(b) {
      var i :| 0 <= i < |b| && Names(b)[i] == n;
      assert b[i] in multiset(a);
      var j :| 0 <= j < |a| && a[j] == b[i];
      assert Names(a)[j] == n;
    }
  }

  /**
   * The sort succeeds exactly when the name hashes are pairwise distinct,
   * and then returns a permutation of its input ordered strictly by name hash.
   */
  lemma {:induction false} SortedWithSpec(t: seq<HashPair>)
    ensures SortedWith(t).Ok? <==> DistinctNames(t)
    ensures SortedWith(t).Err? ==> SortedWith(t).error == IndexOutOfBounds
    ensures SortedWith(t).Ok? ==>
      multiset(SortedWith(t).value) == multiset(t) && StrictlySorted(SortedWith(t).value)
    decreases |t|
  {
    if t != [] {
      var init, last := t[..|t| - 1], t[|t| - 1];
      assert t == init + [last];
      SortedWithSpec(init);
      assert DistinctNames(t) <==> DistinctNames(init) && last.name !in Names(init) by {
        if DistinctNames(t) {
          assert DistinctNames(init);
          forall i | 0 <= i < |init| ensures Names(init)[i] != last.name {
            assert t[i].name != t[|t| - 1].name;
          }
        }
        if DistinctNames(init) && last.name !in Names(init) {
          forall i, j | 0 <= i < j < |t| ensures t[i].name != t[j].name {
            if j == |t| - 1 { assert Names(init)[i] == t[i].name; }
            else { assert init[i] == t[i] && init[j] == t[j]; }
          }
        }
      }
      if SortedWith(init).Ok? {
        var s := SortedWith(init).value;
        InsertSpec(last, s);
        PermutationNames(s, init, last.name);
      }
    }
  }

  /** A strictly sorted sequence holds each pair at most once. */
  lemma {:induction false} StrictlySortedCount(s: seq<HashPair>, x: HashPair)
    requires StrictlySorted(s)
    ensures multiset(s)[x] <= 1
    decreases |s|
  {
    if s != [] {
      var tail := s[1..];
      assert s == [s[0]] + tail;
      assert StrictlySorted(tail);
      StrictlySortedCount(tail, x);
      if x == s[0] && x in tail {
        var j :| 0 <= j < |tail| && tail[j] == x;
        assert s[j + 1] == s[0];
        LexLessIrreflexive(x.name);
      }
    }
  }

  /** The head of a strictly sorted list lies below every other element. */
  lemma HeadIsLeast(s: seq<HashPair>, x: HashPair)
    requires StrictlySorted(s) && x in s && x != s[0]
    ensures LexLess(s[0].name, x.name)
  {
    var j :| 0 <= j < |s| && s[j] == x;
  }

  lemma HeadsEqual(a: seq<HashPair>, b: seq<HashPair>)
    requires StrictlySorted(a) && StrictlySorted(b) && a != [] && b != []
    requires multiset(a) == multiset(b)
    ensures a[0] == b[0]
  {
    assert a[0] in multiset(b) && b[0] in multiset(a);
    if a[0] != b[0] {
      HeadIsLeast(a, b[0]);
      HeadIsLeast(b, a[0]);
      LexLessAsymmetric(a[0].name, b[0].name);
    }
  }

  /** Two strictly sorted permutations of the same pairs are equal. */
  lemma {:induction false} StrictlySortedUnique(a: seq<HashPair>, b: seq<HashPair>)
    requires StrictlySorted(a) && StrictlySorted(b)
    requires multiset(a) == multiset(b)
    ensures a == b
    decreases |a|
  {
    if a == [] || b == [] {
      assert |multiset(a)| == |a| && |multiset(b)| == |b|;
    } else {
      HeadsEqual(a, b);
      SortedTail(a);
      SortedTail(b);
      assert a == [a[0]] + a[1..] && b == [b[0]] + b[1..];
      assert multiset(a[1..]) == multiset(a) - multiset{a[0]};
      assert multiset(b[1..]) == multiset(b) - multiset{b[0]};
      StrictlySortedUnique(a[1..], b[1..]);
    }
  }

  /**
   * Order independence: permuting the traversed pairs before sorting
   * changes neither the outcome nor the sorted list.
   */
  lemma OrderIndependent(t1: seq<HashPair>, t2: seq<HashPair>)
    requires multiset(t1) == multiset(t2)
    ensures SortedWith(t1) == SortedWith(t2)
  {
    SortedWithSpec(t1);
    SortedWithSpec(t2);
    if SortedWith(t1).Ok? && SortedWith(t2).Ok? {
      StrictlySortedUnique(SortedWith(t1).value, SortedWith(t2).value);
    } else if SortedWith(t1).Ok? {
      DuplicateNamesNotSortable(SortedWith(t1).value, t2);
    } else if SortedWith(t2).Ok? {
      DuplicateNamesNotSortable(SortedWith(t2).value, t1);
    }
  }

  /** A permutation of a strictly sorted list has distinct names. */
  lemma DuplicateNamesNotSortable(s: seq<HashPair>, t: seq<HashPair>)
    requires StrictlySorted(s) && multiset(s) == multiset(t)
    ensures DistinctNames(t)
  {
    forall i, j | 0 <= i < j < |t| ensures t[i].name != t[j].name {
      if t[i].name == t[j].name {
        assert t[i] in multiset(s) && t[j] in multiset(s);
        if t[i] == t[j] {
          var x := t[i];
          assert t == t[..j] + t[j..];
          assert x in t[..j] && x == t[j..][0];
          assert multiset(t)[x] == multiset(t[..j])[x] + multiset(t[j..])[x];
          StrictlySortedCount(s, x);
        } else {
          var p :| 0 <= p < |s| && s[p] == t[i];
          var q :| 0 <= q < |s| && s[q] == t[j];
          LexLessIrreflexive(t[i].name);
        }
      }
    }
  }

  /** The value hashes are never compared: only the names steer the sort. */
  lemma {:induction false} InsertIgnoresValues(p1: HashPair, s1: seq<HashPair>, p2: HashPair, s2: seq<HashPair>)
    requires p1.name == p2.name && Names(s1) == Names(s2)
    ensures Insert(p1, s1).Ok? == Insert(p2, s2).Ok?
    ensures Insert(p1, s1).Ok? ==> Names(Insert(p1, s1).value) == Names(Insert(p2, s2).value)
    decreases |s1|
  {
    if s1 != [] {
      assert s1[0].name == Names(s1)[0] == Names(s2)[0] == s2[0].name;
      assert Names(s1[1..]) == Names(s1)[1..] && Names(s2[1..]) == Names(s2)[1..];
      InsertIgnoresValues(p1, s1[1..], p2, s2[1..]);
      if Insert(p1, s1).Ok? {
        var r1, r2 := Insert(p1, s1).value, Insert(p2, s2).value;
        if KeyCompare(s1[0].name, p1.name).value > 0 {
          assert Names(r1) == [p1.name] + Names(s1);
        } else {
          var t1, t2 := Insert(p1, s1[1..]).value, Insert(p2, s2[1..]).value;
          assert Names(r1) == [s1[0].name] + Names(t1);
          assert Names(r2) == [s2[0].name] + Names(t2);
        }
      }
    }
  }

  lemma {:induction false} SortedWithIgnoresValues(t1: seq<HashPair>, t2: seq<HashPair>)
    requires Names(t1) == Names(t2)
    ensures SortedWith(t1).Ok? == SortedWith(t2).Ok?
    ensures SortedWith(t1).Ok? ==> Names(SortedWith(t1).value) == Names(SortedWith(t2).value)
    decreases |t1|
  {
    if t1 != [] {
      var n := |t1|;
      assert Names(t1[..n - 1]) == Names(t1)[..n - 1] && Names(t2[..n - 1]) == Names(t2)[..n - 1];
      SortedWithIgnoresValues(t1[..n - 1], t2[..n - 1]);
      if SortedWith(t1[..n - 1]).Ok? {
        assert t1[n - 1].name == Names(t1)[n - 1];
        InsertIgnoresValues(t1[n - 1], SortedWith(t1[..n - 1]).value, t2[n - 1], SortedWith(t2[..n - 1]).value);
      }
    }
  }

  // ---------------------------------------------------------------------
  // Concatenation
  // ---------------------------------------------------------------------

  /** Each pair's name hash then its value hash, in list order. */
  function Flatten(s: seq<HashPair>): seq<byte>
  {
    if s == [] then [] else s[0].name + s[0].value + Flatten(s[1..])
  }

  /** `sorted.map { it.first.size + it.second.size }.sum()`. */
  function ConcatenatedSize(s: seq<HashPair>): nat
  {
    if s == [] then 0 else |s[0].name| + |s[0].value| + ConcatenatedSize(s[1..])
  }

  lemma {:induction false} FlattenAppend(a: seq<HashPair>, b: seq<HashPair>)
    ensures Flatten(a + b) == Flatten(a) + Flatten(b)
    ensures ConcatenatedSize(a + b) == ConcatenatedSize(a) + ConcatenatedSize(b)
    decreases |a|
  {
    if a != [] {
      var ab := a + b;
      assert ab[0] == a[0] && ab[1..] == a[1..] + b;
      FlattenAppend(a[1..], b);
      calc {
        Flatten(ab);
        ab[0].name + ab[0].value + Flatten(ab[1..]);
        a[0].name + a[0].value + (Flatten(a[1..]) + Flatten(b));
        (a[0].name + a[0].value + Flatten(a[1..])) + Flatten(b);
        Flatten(a) + Flatten(b);
      }
    } else {
      assert a + b == b;
    }
  }

  /** The buffer is 64 bytes per pair and holds exactly what was allocated for. */
  lemma {:induction false} FlattenSize(s: seq<HashPair>)
    ensures |Flatten(s)| == ConcatenatedSize(s) == 64 * |s|
    decreases |s|
  {
    if s != [] {
      FlattenSize(s[1..]);
    }
  }

  /** Pair `k` sits at bytes `64k .. 64k + 64`: name hash, then value hash. */
  lemma {:induction false} FlattenAt(s: seq<HashPair>, k: nat)
    requires k < |s|
    ensures |Flatten(s)| == 64 * |s|
    ensures Flatten(s)[64 * k .. 64 * k + 32] == s[k].name
    ensures Flatten(s)[64 * k + 32 .. 64 * k + 64] == s[k].value
    decreases k
  {
    FlattenSize(s);
    var f := Flatten(s);
    assert f == s[0].name + s[0].value + Flatten(s[1..]);
    if k > 0 {
      FlattenAt(s[1..], k - 1);
      assert f[64..] == Flatten(s[1..]);
      assert f[64 * k .. 64 * k + 32] == f[64..][64 * (k - 1) .. 64 * (k - 1) + 32];
      assert f[64 * k + 32 .. 64 * k + 64] == f[64..][64 * (k - 1) + 32 .. 64 * (k - 1) + 64];
    }
  }

  /**
   * `ByteBuffer.allocate(concatenatedSize)`, a `put` of each pair's two
   * hashes, `rewind` and `get` into a fresh array.
   */
  method Concatenate(sorted: seq<HashPair>) returns (concatenated: seq<byte>)
    ensures concatenated == Flatten(sorted)
    ensures |concatenated| == ConcatenatedSize(sorted)
  {
    var concatenatedSize := ConcatenatedSize(sorted);
    var buf := new ByteBuffer.Allocate(concatenatedSize);
    assert buf.Holds([]);
    assert sorted[0..] == sorted;
    ghost var written: seq<byte> := [];
    for j := 0 to |sorted|
      invariant buf.Valid() && buf.data.Length == concatenatedSize
      invariant buf.Holds(written)
      invariant written + Flatten(sorted[j..]) == Flatten(sorted)
      invariant |written| + ConcatenatedSize(sorted[j..]) == concatenatedSize
    {
      assert sorted[j..][1..] == sorted[j + 1..];
      ghost var n: seq<byte>, v: seq<byte> := sorted[j].name, sorted[j].value;
      ghost var f := Flatten(sorted[j + 1..]);
      assert Flatten(sorted[j..]) == n + v + f;
      assert written + (n + v + f) == written + n + v + f;
      Append(buf, written, sorted[j].name);
      Append(buf, written + sorted[j].name, sorted[j].value);
      written := written + sorted[j].name + sorted[j].value;
    }
    assert buf.data[0..concatenatedSize] == buf.data[..];
    buf.Rewind();
    var ok, bytes := buf.Get(concatenatedSize);
    assert ok;
    concatenated := bytes;
  }

  /** Sorting, concatenating and hashing the traversed pairs. */
  function IdOfPairs(sha: Sha256, traversed: seq<HashPair>): Result<Digest, RequestFailure>
  {
    match SortedWith(traversed)
    case Err(e) => Err(e)
    case Ok(sorted) => Ok(sha(Flatten(sorted)))
  }

  /**
   * The id is the hash of the concatenation in THE canonical order: any
   * strictly name-sorted permutation of the traversed pairs gives it.
   */
  lemma IdIsHashOfCanonicalOrder(sha: Sha256, traversed: seq<HashPair>, canonical: seq<HashPair>)
    requires StrictlySorted(canonical) && multiset(canonical) == multiset(traversed)
    ensures IdOfPairs(sha, traversed) == Ok(sha(Flatten(canonical)))
  {
    SortedWithSpec(traversed);
    DuplicateNamesNotSortable(canonical, traversed);
    StrictlySortedUnique(SortedWith(traversed).value, canonical);
  }

  /** Permuting the traversed pairs does not change the id, or its failure. */
  lemma IdOrderIndependent(sha: Sha256, t1: seq<HashPair>, t2: seq<HashPair>)
    requires multiset(t1) == multiset(t2)
    ensures IdOfPairs(sha, t1) == IdOfPairs(sha, t2)
  {
    OrderIndependent(t1, t2);
  }
}
