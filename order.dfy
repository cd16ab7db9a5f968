/**
 * Orderings and the sorting steps the core relies on: Rust's lexicographic
 * `Ord` on slices and strings (first differing element decides, a proper
 * prefix comes first), `Vec::sort` and `Vec::dedup`.
 */
module Order {

  ghost predicate Irreflexive<T(!new)>(lt: (T, T) -> bool)
  {
    forall x :: !lt(x, x)
  }

  ghost predicate Transitive<T(!new)>(lt: (T, T) -> bool)
  {
    forall x, y, z :: lt(x, y) && lt(y, z) ==> lt(x, z)
  }

  ghost predicate Connected<T(!new)>(lt: (T, T) -> bool)
  {
    forall x, y :: x != y ==> lt(x, y) || lt(y, x)
  }

  ghost predicate StrictTotalOrder<T(!new)>(lt: (T, T) -> bool)
  {
    Irreflexive(lt) && Transitive(lt) && Connected(lt)
  }

  /** Lexicographic order on sequences, built from an order on their elements. */
  predicate Lex<T(==)>(a: seq<T>, b: seq<T>, lt: (T, T) -> bool)
    decreases |a|
  {
    if a == [] then b != []
    else if b == [] then false
    else if a[0] == b[0] then Lex(a[1..], b[1..], lt)
    else lt(a[0], b[0])
  }

  lemma {:induction false} LexIrreflexive<T>(a: seq<T>, lt: (T, T) -> bool)
    ensures !Lex(a, a, lt)
    decreases |a|
  {
    if a != [] {
      LexIrreflexive(a[1..], lt);
    }
  }

  lemma {:induction false} LexTransitive<T(!new)>(a: seq<T>, b: seq<T>, c: seq<T>, lt: (T, T) -> bool)
    requires Irreflexive(lt) && Transitive(lt)
    requires Lex(a, b, lt) && Lex(b, c, lt)
    ensures Lex(a, c, lt)
    decreases |a|
  {
    if a != [] {
      if a[0] == b[0] && b[0] == c[0] {
        LexTransitive(a[1..], b[1..], c[1..], lt);
      }
    }
  }

  lemma {:induction false} LexConnected<T>(a: seq<T>, b: seq<T>, lt: (T, T) -> bool)
    requires forall x, y :: x != y ==> lt(x, y) || lt(y, x)
    requires a != b
    ensures Lex(a, b, lt) || Lex(b, a, lt)
    decreases |a|
  {
    if a != [] && b != [] && a[0] == b[0] {
      assert a == [a[0]] + a[1..] && b == [b[0]] + b[1..];
      LexConnected(a[1..], b[1..], lt);
    }
  }

  /** The lexicographic extension of a strict total order is a strict total order. */
  lemma LexStrictTotalOrder<T(!new)>(lt: (T, T) -> bool)
    requires StrictTotalOrder(lt)
    ensures StrictTotalOrder((a: seq<T>, b: seq<T>) => Lex(a, b, lt))
  {
    forall a: seq<T> {
      LexIrreflexive(a, lt);
    }
    forall a: seq<T>, b: seq<T>, c: seq<T> | Lex(a, b, lt) && Lex(b, c, lt) ensures Lex(a, c, lt) {
      LexTransitive(a, b, c, lt);
    }
    forall a: seq<T>, b: seq<T> | a != b ensures Lex(a, b, lt) || Lex(b, a, lt) {
      LexConnected(a, b, lt);
    }
  }

  /** `Lex` over `lt`, as a relation value that can be handed to `Sort` and `Dedup`. */
  function LexLt<T(==)>(lt: (T, T) -> bool): (seq<T>, seq<T>) -> bool
  {
    (a: seq<T>, b: seq<T>) => Lex(a, b, lt)
  }

  lemma LexLtStrictTotalOrder<T(!new)>(lt: (T, T) -> bool)
    requires StrictTotalOrder(lt)
    ensures StrictTotalOrder(LexLt(lt))
  {
    LexStrictTotalOrder(lt);
  }

  /** Code-point order on characters; on Rust strings it is the byte order of their UTF-8 encoding. */
  predicate CharLt(x: char, y: char)
  {
    x < y
  }

  /** The order of `String` keys in a `BTreeMap`. */
  function StrLt(): (string, string) -> bool
  {
    LexLt(CharLt)
  }

  lemma StrLtStrictTotalOrder()
    ensures StrictTotalOrder(StrLt())
  {
    LexLtStrictTotalOrder(CharLt);
  }

  /** The elements of a sequence, forgetting order and multiplicity. */
  ghost function Elems<T>(s: seq<T>): set<T>
  {
    set x | x in s
  }

  lemma ElemsAppend<T>(s: seq<T>, x: T)
    ensures Elems(s + [x]) == Elems(s) + {x}
  {
    assert forall y :: y in s + [x] <==> y in s || y == x;
  }

  lemma ElemsHead<T>(s: seq<T>)
    requires s != []
    ensures s[0] in Elems(s)
  {
  }

  /** Non-decreasing under `lt`: no later element is below an earlier one. */
  ghost predicate Sorted<T>(s: seq<T>, lt: (T, T) -> bool)
  {
    forall i, j :: 0 <= i < j < |s| ==> !lt(s[j], s[i])
  }

  /** Strictly increasing under `lt`, hence free of duplicates. */
  ghost predicate StrictlySorted<T>(s: seq<T>, lt: (T, T) -> bool)
  {
    forall i, j :: 0 <= i < j < |s| ==> lt(s[i], s[j])
  }

  /**
   * A strictly increasing sequence is determined by its elements: whatever
   * order the elements were gathered in, sorting and de-duplicating them
   * gives one and the same sequence.
   */
  lemma {:induction false} StrictlySortedUnique<T(!new)>(a: seq<T>, b: seq<T>, lt: (T, T) -> bool)
    requires StrictTotalOrder(lt)
    requires StrictlySorted(a, lt) && StrictlySorted(b, lt)
    requires Elems(a) == Elems(b)
    ensures a == b
    decreases |a|
  {
    if a == [] {
      if b != [] {
        ElemsHead(b);
        assert false;
      }
    } else if b == [] {
      ElemsHead(a);
      assert false;
    } else {
      assert a[0] in Elems(b);
      assert b[0] in Elems(a);
      if a[0] != b[0] {
        // each head lies above the other's head, which the order forbids
        assert false;
      }
      var a', b' := a[1..], b[1..];
      forall x ensures x in a' <==> x in b' {
        if x in a' {
          var k :| 0 <= k < |a'| && a'[k] == x;
          assert lt(a[0], a[k + 1]);
          assert x in Elems(b);
        }
        if x in b' {
          var k :| 0 <= k < |b'| && b'[k] == x;
          assert lt(b[0], b[k + 1]);
          assert x in Elems(a);
        }
      }
      assert Elems(a') == Elems(b');
      StrictlySortedUnique(a', b', lt);
      assert a == [a[0]] + a' && b == [b[0]] + b';
    }
  }

  /**
   * Inserts `x` after every element not above it, as a stable insertion
   * does, keeping the sequence sorted.
   */
  method Insert<T(!new)>(s: seq<T>, x: T, lt: (T, T) -> bool) returns (r: seq<T>)
    requires StrictTotalOrder(lt)
    requires Sorted(s, lt)
    ensures Sorted(r, lt)
    ensures multiset(r) == multiset(s) + multiset{x}
  {
    var j := 0;
    while j < |s| && !lt(x, s[j])
      invariant 0 <= j <= |s|
      invariant forall k :: 0 <= k < j ==> !lt(x, s[k])
    {
      j := j + 1;
    }
    assert s == s[..j] + s[j..];
    InsertSorted(s[..j], s[j..], x, lt);
    r := s[..j] + [x] + s[j..];
  }

  /**
   * Placing `x` between a prefix none of whose elements it lies below and
   * a suffix whose first element lies above it keeps a sorted sequence sorted.
   */
  lemma InsertSorted<T(!new)>(front: seq<T>, back: seq<T>, x: T, lt: (T, T) -> bool)
    requires StrictTotalOrder(lt)
    requires Sorted(front + back, lt)
    requires forall k :: 0 <= k < |front| ==> !lt(x, front[k])
    requires back != [] ==> lt(x, back[0])
    ensures Sorted(front + [x] + back, lt)
  {
    SortedSlices(front, back, lt);
    // `x` lies below `back[0]`, which no later element lies below
    assert forall k :: 0 <= k < |back| ==> !lt(back[k], x);
    SortedConcat([x], back, lt);
    forall i, k | 0 <= i < |front| && 0 <= k < |[x] + back| ensures !lt(([x] + back)[k], front[i]) {
      if k > 0 {
        assert ([x] + back)[k] == back[k - 1];
        assert (front + back)[i] == front[i] && (front + back)[|front| + k - 1] == back[k - 1];
      }
    }
    SortedConcat(front, [x] + back, lt);
    assert front + [x] + back == front + ([x] + back);
  }

  lemma SortedSlices<T>(a: seq<T>, b: seq<T>, lt: (T, T) -> bool)
    requires Sorted(a + b, lt)
    ensures Sorted(a, lt) && Sorted(b, lt)
  {
    forall i, k | 0 <= i < k < |a| ensures !lt(a[k], a[i]) {
      assert (a + b)[k] == a[k] && (a + b)[i] == a[i];
    }
    forall i, k | 0 <= i < k < |b| ensures !lt(b[k], b[i]) {
      assert (a + b)[|a| + k] == b[k] && (a + b)[|a| + i] == b[i];
    }
  }

  /** Two sorted sequences, no element of the second below one of the first, concatenate to a sorted one. */
  lemma SortedConcat<T>(a: seq<T>, b: seq<T>, lt: (T, T) -> bool)
    requires Sorted(a, lt) && Sorted(b, lt)
    requires forall i, k :: 0 <= i < |a| && 0 <= k < |b| ==> !lt(b[k], a[i])
    ensures Sorted(a + b, lt)
  {
    forall i, k | 0 <= i < k < |a + b| ensures !lt((a + b)[k], (a + b)[i]) {
      if k < |a| {
        assert (a + b)[k] == a[k] && (a + b)[i] == a[i];
      } else if i < |a| {
        assert (a + b)[k] == b[k - |a|] && (a + b)[i] == a[i];
      } else {
        assert (a + b)[k] == b[k - |a|] && (a + b)[i] == b[i - |a|];
      }
    }
  }

  /** `Vec::sort`: the same elements, non-decreasing. Modelled as insertion sort. */
  method Sort<T(!new)>(s: seq<T>, lt: (T, T) -> bool) returns (r: seq<T>)
    requires StrictTotalOrder(lt)
    ensures Sorted(r, lt)
    ensures multiset(r) == multiset(s)
  {
    r := [];
    for i := 0 to |s|
      invariant Sorted(r, lt)
      invariant multiset(r) == multiset(s[..i])
    {
      r := Insert(r, s[i], lt);
      assert s[..i + 1] == s[..i] + [s[i]];
    }
    assert s[..|s|] == s;
  }

  /**
   * `Vec::dedup`: drops every element equal to the one kept before it.
   * On sorted input the result is strictly increasing with the same elements.
   */
  method Dedup<T(!new, ==)>(s: seq<T>, lt: (T, T) -> bool) returns (r: seq<T>)
    requires StrictTotalOrder(lt)
    requires Sorted(s, lt)
    ensures StrictlySorted(r, lt)
    ensures Elems(r) == Elems(s)
    ensures |r| <= |s|
  {
    r := [];
    for i := 0 to |s|
      invariant StrictlySorted(r, lt)
      invariant Elems(r) == Elems(s[..i])
      invariant |r| <= i
      invariant r != [] ==> i > 0 && r[|r| - 1] == s[i - 1]
    {
      if r == [] || r[|r| - 1] != s[i] {
        if r != [] {
          assert !lt(s[i], s[i - 1]);
          forall k | 0 <= k < |r| ensures lt(r[k], s[i]) {
            if k < |r| - 1 {
              assert lt(r[k], r[|r| - 1]);
            }
          }
        }
        ElemsAppend(r, s[i]);
        r := r + [s[i]];
      } else {
        assert s[i] in Elems(r);
      }
      assert s[..i + 1] == s[..i] + [s[i]];
      ElemsAppend(s[..i], s[i]);
    }
    assert s[..|s|] == s;
  }
}
