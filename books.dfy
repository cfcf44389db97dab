/**
 * Books: one side of an instrument's order book as a sequence of resting
 * orders, and the list operations the engine performs on it — compaction of
 * filled entries (`removeAll`), `binarySearch` and positional insertion.
 */
module Books {
  import opened Results
  import opened Orders

  /** Ascending by `Compare`, the order `binarySearch` expects. */
  predicate Sorted(book: seq<Order>)
  {
    forall i, j :: 0 <= i < j < |book| ==> Compare(book[i], book[j]) <= 0
  }

  /** Ascending with no two entries comparing equal. */
  predicate StrictlySorted(book: seq<Order>)
  {
    forall i, j :: 0 <= i < j < |book| ==> Compare(book[i], book[j]) < 0
  }

  /** The sum of the open quantities in a book. */
  function Total(book: seq<Order>): nat
  {
    if book == [] then 0 else book[0].quantity + Total(book[1..])
  }

  // ---------------------------------------------------------------------------
  // removeAll { it.quantity <= 0 }
  // ---------------------------------------------------------------------------

  /** The entries with a positive quantity, in their original order. */
  function RemoveFilled(book: seq<Order>): (r: seq<Order>)
    ensures |r| <= |book|
    ensures forall o :: o in r <==> o in book && o.quantity > 0
  {
    if book == [] then []
    else if book[0].quantity <= 0 then RemoveFilled(book[1..])
    else [book[0]] + RemoveFilled(book[1..])
  }

  /** Compaction works piecewise, so the survivors keep their relative order. */
  lemma {:induction false} RemoveFilledAppend(a: seq<Order>, b: seq<Order>)
    ensures RemoveFilled(a + b) == RemoveFilled(a) + RemoveFilled(b)
  {
    if a != [] {
      assert (a + b)[1..] == a[1..] + b;
      RemoveFilledAppend(a[1..], b);
    } else {
      assert a + b == b;
    }
  }

  /** Removing zero-quantity entries does not change the open quantity. */
  lemma {:induction false} RemoveFilledTotal(book: seq<Order>)
    ensures Total(RemoveFilled(book)) == Total(book)
  {
    if book != [] {
      RemoveFilledTotal(book[1..]);
      if book[0].quantity > 0 {
        assert ([book[0]] + RemoveFilled(book[1..]))[1..] == RemoveFilled(book[1..]);
      }
    }
  }

  /** A book without zero-quantity entries is left as it is. */
  lemma {:induction false} RemoveFilledKeepsOpen(book: seq<Order>)
    requires forall i :: 0 <= i < |book| ==> book[i].quantity > 0
    ensures RemoveFilled(book) == book
  {
    if book != [] {
      RemoveFilledKeepsOpen(book[1..]);
      assert [book[0]] + book[1..] == book;
    }
  }

  /** A book whose entries are all filled compacts to nothing. */
  lemma {:induction false} RemoveFilledDropsFilled(book: seq<Order>)
    requires forall i :: 0 <= i < |book| ==> book[i].quantity == 0
    ensures RemoveFilled(book) == []
  {
    if book != [] {
      RemoveFilledDropsFilled(book[1..]);
    }
  }

  /** Compaction keeps a strictly sorted book strictly sorted. */
  lemma {:induction false} RemoveFilledSorted(book: seq<Order>)
    requires StrictlySorted(book)
    ensures StrictlySorted(RemoveFilled(book))
  {
    if book != [] {
      var tail := book[1..];
      assert StrictlySorted(tail) by {
        forall i, j | 0 <= i < j < |tail| ensures Compare(tail[i], tail[j]) < 0 {
          assert tail[i] == book[i + 1] && tail[j] == book[j + 1];
        }
      }
      RemoveFilledSorted(tail);
      if book[0].quantity > 0 {
        var rest := RemoveFilled(tail);
        forall j | 0 <= j < |rest| ensures Compare(book[0], rest[j]) < 0 {
          assert rest[j] in tail;
          var k :| 0 <= k < |tail| && tail[k] == rest[j];
          assert book[k + 1] == rest[j];
        }
        PrependSorted(book[0], rest);
      }
    }
  }

  lemma PrependSorted(x: Order, s: seq<Order>)
    requires StrictlySorted(s)
    requires forall j :: 0 <= j < |s| ==> Compare(x, s[j]) < 0
    ensures StrictlySorted([x] + s)
  {
    var r := [x] + s;
    forall i, j | 0 <= i < j < |r| ensures Compare(r[i], r[j]) < 0 {
      if i == 0 {
        assert r[j] == s[j - 1];
      } else {
        assert r[i] == s[i - 1] && r[j] == s[j - 1];
      }
    }
  }

  // ---------------------------------------------------------------------------
  // binarySearch and positional insertion
  // ---------------------------------------------------------------------------

  /** The number of entries that compare smaller than `o`. */
  function CountLess(book: seq<Order>, o: Order): (n: nat)
    ensures n <= |book|
  {
    if book == [] then 0
    else (if Compare(book[0], o) < 0 then 1 else 0) + CountLess(book[1..], o)
  }

  predicate HasKey(book: seq<Order>, o: Order)
  {
    exists i :: 0 <= i < |book| && Compare(book[i], o) == 0
  }

  /** The first entry that compares equal to `o`. */
  function KeyIndex(book: seq<Order>, o: Order): (k: nat)
    requires HasKey(book, o)
    ensures k < |book| && Compare(book[k], o) == 0
    ensures forall i :: 0 <= i < k ==> Compare(book[i], o) != 0
  {
    if Compare(book[0], o) == 0 then 0
    else
      assert HasKey(book[1..], o) by {
        var i :| 0 <= i < |book| && Compare(book[i], o) == 0;
        assert book[1..][i - 1] == book[i];
      }
      1 + KeyIndex(book[1..], o)
  }

  /** `list.add(p, o)`. */
  function InsertAt(book: seq<Order>, p: nat, o: Order): (r: seq<Order>)
    requires p <= |book|
    ensures |r| == |book| + 1 && r[p] == o
    ensures forall i :: 0 <= i < p ==> r[i] == book[i]
    ensures forall i :: p < i < |r| ==> r[i] == book[i - 1]
    ensures multiset(r) == multiset(book) + multiset{o}
  {
    assert book == book[..p] + book[p..];
    book[..p] + [o] + book[p..]
  }

  /** A split point: everything before `p` compares smaller, nothing from `p` on does. */
  predicate SplitsAt(book: seq<Order>, o: Order, p: nat)
  {
    p <= |book|
    && (forall i :: 0 <= i < p ==> Compare(book[i], o) < 0)
    && (forall i :: p <= i < |book| ==> Compare(book[i], o) >= 0)
  }

  /** Any split point is the count of the smaller entries. */
  lemma {:induction false} SplitIsCountLess(book: seq<Order>, o: Order, p: nat)
    requires SplitsAt(book, o, p)
    ensures p == CountLess(book, o)
  {
    if book != [] {
      if p == 0 {
        SplitIsCountLess(book[1..], o, 0);
      } else {
        SplitIsCountLess(book[1..], o, p - 1);
      }
    }
  }

  /** In a sorted book the smaller entries form a prefix. */
  lemma {:induction false} CountLessSplits(book: seq<Order>, o: Order)
    requires Sorted(book)
    ensures SplitsAt(book, o, CountLess(book, o))
  {
    if book != [] {
      var rest := book[1..];
      assert Sorted(rest) by {
        forall i, j | 0 <= i < j < |rest| ensures Compare(rest[i], rest[j]) <= 0 {
          assert rest[i] == book[i + 1] && rest[j] == book[j + 1];
        }
      }
      CountLessSplits(rest, o);
      if Compare(book[0], o) >= 0 {
        forall i | 0 <= i < |rest| ensures Compare(rest[i], o) >= 0 {
          assert rest[i] == book[i + 1];
          CompareAntisymmetric(book[0], o);
          CompareAntisymmetric(rest[i], o);
          if Compare(book[0], o) == 0 {
            CompareZeroIffSameKey(book[0], o);
            CompareRespectsKey(book[0], o, rest[i]);
          } else {
            CompareTransitiveLtLe(o, book[0], rest[i]);
          }
        }
        assert CountLess(rest, o) == 0 by {
          if |rest| > 0 { assert Compare(rest[0], o) >= 0; }
        }
      }
    }
  }

  datatype BookError = IndexOutOfBounds(index: int)

  /**
   * `addOrder` on one side's book: an empty book gets the order appended;
   * otherwise it goes in at the binary-search insertion point, and when an entry
   * comparing equal already rests the negative index makes the insert throw.
   */
  function AddToBook(book: seq<Order>, o: Order): (r: Result<seq<Order>, BookError>)
  {
    if book == [] then Ok([o])
    else if HasKey(book, o) then Err(IndexOutOfBounds(-(KeyIndex(book, o) as int) - 1))
    else Ok(InsertAt(book, CountLess(book, o), o))
  }

  /**
   * `List.binarySearch`: on a sorted book, a non-negative result is the index of
   * an entry comparing equal; a negative one is `-(insertion point) - 1` and
   * says that no entry compares equal.
   */
  method BinarySearch(book: seq<Order>, o: Order) returns (idx: int)
    requires Sorted(book)
    ensures 0 <= idx ==> idx < |book| && Compare(book[idx], o) == 0
    ensures idx < 0 ==> !HasKey(book, o) && -idx - 1 == CountLess(book, o)
  {
    var low, high := 0, |book| - 1;
    while low <= high
      invariant 0 <= low <= high + 1 <= |book|
      invariant forall i :: 0 <= i < low ==> Compare(book[i], o) < 0
      invariant forall i :: high < i < |book| ==> Compare(book[i], o) > 0
    {
      var mid := (low + high) / 2;
      var cmp := Compare(book[mid], o);
      if cmp < 0 {
        forall i | 0 <= i < mid ensures Compare(book[i], o) < 0 {
          CompareTransitiveLeLt(book[i], book[mid], o);
        }
        low := mid + 1;
      } else if cmp > 0 {
        forall i | mid < i < |book| ensures Compare(book[i], o) > 0 {
          CompareAntisymmetric(book[mid], o);
          CompareTransitiveLtLe(o, book[mid], book[i]);
          CompareAntisymmetric(book[i], o);
        }
        high := mid - 1;
      } else {
        return mid;
      }
    }
    SplitIsCountLess(book, o, low);
    idx := -(low + 1);
  }

  /**
   * Inserting an order with no equal-key entry at the insertion point keeps a
   * strictly sorted book strictly sorted: everything before it compares smaller,
   * everything after it larger.
   */
  lemma AddToBookSorted(book: seq<Order>, o: Order)
    requires StrictlySorted(book) && !HasKey(book, o)
    ensures AddToBook(book, o).Ok?
    ensures StrictlySorted(AddToBook(book, o).value)
    ensures multiset(AddToBook(book, o).value) == multiset(book) + multiset{o}
  {
    if book != [] {
      var p := CountLess(book, o);
      CountLessSplits(book, o);
      var r := InsertAt(book, p, o);
      forall i, j | 0 <= i < j < |r| ensures Compare(r[i], r[j]) < 0 {
        if j == p {
          assert r[i] == book[i];
        } else if i == p {
          assert r[j] == book[j - 1];
          assert Compare(book[j - 1], o) != 0;
          CompareAntisymmetric(book[j - 1], o);
        } else if j < p {
          assert r[i] == book[i] && r[j] == book[j];
        } else if i > p {
          assert r[i] == book[i - 1] && r[j] == book[j - 1];
        } else {
          assert r[i] == book[i] && r[j] == book[j - 1];
        }
      }
    }
  }

  /** In a strictly sorted book at most one entry compares equal to `o`, so the search finds the first. */
  lemma KeyIndexUnique(book: seq<Order>, o: Order, i: nat)
    requires StrictlySorted(book) && i < |book| && Compare(book[i], o) == 0
    ensures HasKey(book, o) && KeyIndex(book, o) == i
  {
    var k := KeyIndex(book, o);
    if k < i {
      CompareZeroIffSameKey(book[k], o);
      CompareZeroIffSameKey(book[i], o);
      CompareZeroIffSameKey(book[k], book[i]);
    }
  }

  /**
   * As written, `addOrder` cannot add an order to a non-empty book that already
   * holds an entry comparing equal (same instrument, side, price and timestamp):
   * the computed position is negative.
   */
  lemma AddToBookRejectsEqualKey(book: seq<Order>, o: Order)
    requires book != [] && HasKey(book, o)
    ensures AddToBook(book, o).Err? && AddToBook(book, o).error.index < 0
  {
  }

  /** The number of entries that compare smaller than or equal to `o`. */
  function CountNotAfter(book: seq<Order>, o: Order): (n: nat)
    ensures n <= |book|
  {
    if book == [] then 0
    else (if Compare(book[0], o) <= 0 then 1 else 0) + CountNotAfter(book[1..], o)
  }

  /** In a sorted book the entries not after `o` form a prefix, and the rest compare larger. */
  lemma {:induction false} CountNotAfterSplits(book: seq<Order>, o: Order)
    requires Sorted(book)
    ensures var p := CountNotAfter(book, o);
      && (forall i :: 0 <= i < p ==> Compare(book[i], o) <= 0)
      && (forall i :: p <= i < |book| ==> Compare(o, book[i]) < 0)
  {
    if book != [] {
      var rest := book[1..];
      assert Sorted(rest) by {
        forall i, j | 0 <= i < j < |rest| ensures Compare(rest[i], rest[j]) <= 0 {
          assert rest[i] == book[i + 1] && rest[j] == book[j + 1];
        }
      }
      CountNotAfterSplits(rest, o);
      if Compare(book[0], o) > 0 {
        CompareAntisymmetric(book[0], o);
        forall i | 0 <= i < |rest| ensures Compare(rest[i], o) > 0 {
          assert rest[i] == book[i + 1];
          CompareTransitiveLtLe(o, book[0], rest[i]);
          CompareAntisymmetric(rest[i], o);
        }
        assert CountNotAfter(rest, o) == 0 by {
          if |rest| > 0 { assert Compare(rest[0], o) > 0; }
        }
        forall i | 0 <= i < |book| ensures Compare(o, book[i]) < 0 {
          if i > 0 {
            assert book[i] == rest[i - 1];
            CompareAntisymmetric(rest[i - 1], o);
          }
        }
      } else {
        forall i | 1 <= i < |book| ensures (i < CountNotAfter(book, o) ==> Compare(book[i], o) <= 0)
                                       && (i >= CountNotAfter(book, o) ==> Compare(o, book[i]) < 0) {
          assert book[i] == rest[i - 1];
        }
      }
    }
  }

  /**
   * The evidently intended `addOrder`: insert after every entry comparing
   * smaller or equal, so an order whose key already rests queues behind it.
   */
  function AddAfterEqual(book: seq<Order>, o: Order): (r: seq<Order>)
    ensures multiset(r) == multiset(book) + multiset{o}
  {
    InsertAt(book, CountNotAfter(book, o), o)
  }

  /**
   * The corrected insertion always succeeds, keeps a sorted book sorted, puts
   * the order after every entry it does not beat and before every entry it
   * beats (first come, first served among equal keys), and agrees with
   * `AddToBook` wherever that succeeds.
   */
  lemma AddAfterEqualSorted(book: seq<Order>, o: Order)
    requires Sorted(book)
    ensures var r := AddAfterEqual(book, o);
      var p := CountNotAfter(book, o);
      && Sorted(r) && r[p] == o
      && (forall i :: 0 <= i < p ==> Compare(r[i], o) <= 0)
      && (forall i :: p < i < |r| ==> Compare(o, r[i]) < 0)
    ensures AddToBook(book, o).Ok? ==> AddToBook(book, o).value == AddAfterEqual(book, o)
  {
    var p := CountNotAfter(book, o);
    var r := InsertAt(book, p, o);
    CountNotAfterSplits(book, o);
    forall i, j | 0 <= i < j < |r| ensures Compare(r[i], r[j]) <= 0 {
      if j == p {
        assert r[i] == book[i];
      } else if i == p {
        assert r[j] == book[j - 1];
      } else if j < p {
        assert r[i] == book[i] && r[j] == book[j];
      } else if i > p {
        assert r[i] == book[i - 1] && r[j] == book[j - 1];
      } else {
        assert r[i] == book[i] && r[j] == book[j - 1];
      }
    }
    forall i | p < i < |r| ensures Compare(o, r[i]) < 0 {
      assert r[i] == book[i - 1];
    }
    if book != [] && !HasKey(book, o) {
      CountLessSplits(book, o);
      forall i | 0 <= i < |book| ensures (i < p <==> Compare(book[i], o) < 0) {
        CompareAntisymmetric(book[i], o);
      }
      assert SplitsAt(book, o, p);
      SplitIsCountLess(book, o, p);
    }
  }

  lemma StrictlySortedIsSorted(book: seq<Order>)
    requires StrictlySorted(book)
    ensures Sorted(book)
  {
  }

  /** Inserting an order adds its quantity to the book's total. */
  lemma {:induction false} TotalInsertAt(book: seq<Order>, p: nat, o: Order)
    requires p <= |book|
    ensures Total(InsertAt(book, p, o)) == Total(book) + o.quantity
  {
    var r := InsertAt(book, p, o);
    if p == 0 {
      assert r[1..] == book;
    } else {
      TotalInsertAt(book[1..], p - 1, o);
      assert r[1..] == InsertAt(book[1..], p - 1, o);
    }
  }

  // ---------------------------------------------------------------------------
  // Concatenating several books
  // ---------------------------------------------------------------------------

  /** The books one after another. */
  function Flatten(books: seq<seq<Order>>): seq<Order>
  {
    if books == [] then [] else Flatten(books[..|books| - 1]) + books[|books| - 1]
  }

  function SumLengths(books: seq<seq<Order>>): nat
  {
    if books == [] then 0 else SumLengths(books[..|books| - 1]) + |books[|books| - 1]|
  }

  lemma {:induction false} FlattenLength(books: seq<seq<Order>>)
    ensures |Flatten(books)| == SumLengths(books)
  {
    if books != [] {
      FlattenLength(books[..|books| - 1]);
    }
  }

  lemma {:induction false} FlattenAppend(a: seq<seq<Order>>, b: seq<seq<Order>>)
    ensures Flatten(a + b) == Flatten(a) + Flatten(b)
  {
    if b == [] {
      assert a + b == a;
    } else {
      var c := a + b;
      assert c[..|c| - 1] == a + b[..|b| - 1];
      FlattenAppend(a, b[..|b| - 1]);
    }
  }

  /** Each book sits in the concatenation as one contiguous block, in its own order. */
  lemma {:induction false} FlattenBlock(books: seq<seq<Order>>, k: nat)
    requires k < |books|
    ensures Flatten(books) == Flatten(books[..k]) + books[k] + Flatten(books[k + 1..])
  {
    var front := books[..k + 1];
    assert books == front + books[k + 1..];
    FlattenAppend(front, books[k + 1..]);
    assert front[..|front| - 1] == books[..k];
  }

  /** An order is in the concatenation exactly when it is in one of the books. */
  lemma {:induction false} FlattenMember(books: seq<seq<Order>>, o: Order)
    ensures o in Flatten(books) <==> exists k :: 0 <= k < |books| && o in books[k]
  {
    if books != [] {
      var front := books[..|books| - 1];
      FlattenMember(front, o);
      if o in Flatten(front) {
        var k :| 0 <= k < |front| && o in front[k];
        assert books[k] == front[k];
      }
      if k :| 0 <= k < |books| - 1 && o in books[k] {
        assert front[k] == books[k];
      }
    }
  }
}
