/**
 * The numbers table as a sequence of raw strings in table order. The column is
 * UNIQUE, so the table never holds a string twice.
 */
module Stock {

  predicate NoDup(s: seq<string>)
  {
    forall i, j :: 0 <= i < j < |s| ==> s[i] != s[j]
  }

  /**
   * add_numbers_to_db: insert the strings of `list` one at a time, each insert
   * committed on its own; an insert that would break uniqueness is rolled back
   * and the loop goes on.
   */
  function InsertAll(stock: seq<string>, list: seq<string>): (r: seq<string>)
    ensures |stock| <= |r| <= |stock| + |list|
    ensures r[..|stock|] == stock
    ensures forall x :: x in r <==> x in stock || x in list
    ensures NoDup(stock) ==> NoDup(r)
    decreases |list|
  {
    if list == [] then stock
    else
      var next := if list[0] in stock then stock else stock + [list[0]];
      assert forall x :: x in list <==> x == list[0] || x in list[1..];
      var r := InsertAll(next, list[1..]);
      assert r[..|stock|] == next[..|stock|];
      r
  }

  /** A list of distinct strings is as long as the set of its elements is large. */
  lemma {:induction false} DistinctCard(t: seq<string>)
    requires NoDup(t)
    ensures |set x | x in t| == |t|
  {
    if t != [] {
      var rest := t[1..];
      assert NoDup(rest);
      DistinctCard(rest);
      assert (set x | x in t) == {t[0]} + (set x | x in rest);
      assert t[0] !in rest;
    }
  }

  /**
   * The count add_numbers_to_db reports is the number of distinct strings of
   * the list that were not in stock before.
   */
  lemma {:induction false} AddedCountIsDistinctNew(stock: seq<string>, list: seq<string>)
    requires NoDup(stock)
    ensures |InsertAll(stock, list)| - |stock| == |(set x | x in list) - (set x | x in stock)|
  {
    var r := InsertAll(stock, list);
    var added := r[|stock|..];
    assert r == stock + added;
    assert NoDup(added) by {
      forall i, j | 0 <= i < j < |added| ensures added[i] != added[j] {
        assert added[i] == r[|stock| + i] && added[j] == r[|stock| + j];
      }
    }
    forall x ensures x in added <==> x in list && x !in stock {
      if x in added {
        var k :| 0 <= k < |added| && added[k] == x;
        assert r[|stock| + k] == x;
        forall i | 0 <= i < |stock| ensures stock[i] != x {
          assert r[i] == stock[i];
        }
      }
      if x in list && x !in stock {
        assert x in r;
        var k :| 0 <= k < |r| && r[k] == x;
        assert forall i :: 0 <= i < |stock| ==> r[i] == stock[i];
        assert k >= |stock|;
        assert added[k - |stock|] == x;
      }
    }
    assert (set x | x in added) == (set x | x in list) - (set x | x in stock);
    DistinctCard(added);
  }

  lemma NoDupPrepend(x: string, t: seq<string>)
    ensures NoDup([x] + t) <==> x !in t && NoDup(t)
  {
    var s := [x] + t;
    assert forall i :: 0 <= i < |t| ==> s[i + 1] == t[i];
    if NoDup(s) {
      forall i, j | 0 <= i < j < |t| ensures t[i] != t[j] {
        assert s[i + 1] == t[i] && s[j + 1] == t[j];
      }
      forall i | 0 <= i < |t| ensures t[i] != x {
        assert s[0] == x && s[i + 1] == t[i];
      }
    }
  }

  /** delete_number_from_db: every row holding x goes. */
  function Without(s: seq<string>, x: string): (r: seq<string>)
    ensures forall y :: y in r <==> y in s && y != x
    ensures |r| <= |s|
    ensures NoDup(s) ==> NoDup(r)
    ensures NoDup(s) && x in s ==> |r| == |s| - 1
    ensures x !in s ==> r == s
  {
    if s == [] then []
    else if s[0] == x then Without(s[1..], x)
    else
      var rest := Without(s[1..], x);
      assert forall y :: y in s <==> y == s[0] || y in s[1..];
      NoDupPrepend(s[0], s[1..]);
      assert s == [s[0]] + s[1..];
      NoDupPrepend(s[0], rest);
      [s[0]] + rest
  }

  /** In a table without duplicates, deleting the row at offset k is deleting the string it holds. */
  lemma {:induction false} RemoveAtIsWithout(s: seq<string>, k: nat)
    requires NoDup(s)
    requires k < |s|
    ensures s[..k] + s[k + 1..] == Without(s, s[k])
  {
    if k == 0 {
      assert s[..0] + s[1..] == s[1..];
      assert s[0] !in s[1..];
    } else {
      RemoveAtIsWithout(s[1..], k - 1);
      assert s[1..][..k - 1] + s[1..][k..] == s[1..k] + s[k + 1..];
      assert s[..k] + s[k + 1..] == [s[0]] + (s[1..k] + s[k + 1..]);
    }
  }
}
