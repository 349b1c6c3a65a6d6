/**
 * Sequences of records addressed by a string id, the way the wiki keeps its
 * library of books and each book's list of chapters: `find(x => x.id === id)`
 * returns the first record with that id, `filter(x => x.id !== id)` keeps the
 * others in order.
 */
module Keyed {

  datatype Option<T> = None | Some(value: T)

  /** No two records share an id. */
  predicate UniqueKeys<T>(s: seq<T>, key: T -> string) {
    forall i, j :: 0 <= i < j < |s| ==> key(s[i]) != key(s[j])
  }

  /** Some record carries the id. */
  predicate HasKey<T>(s: seq<T>, key: T -> string, id: string) {
    exists i :: 0 <= i < |s| && key(s[i]) == id
  }

  /** Index of the record `find` returns: the first one whose id is `id`. */
  function FirstIndex<T>(s: seq<T>, key: T -> string, id: string): (r: Option<nat>)
    ensures r.Some? ==> r.value < |s| && key(s[r.value]) == id
    ensures r.Some? ==> forall j :: 0 <= j < r.value ==> key(s[j]) != id
    ensures r.None? <==> !HasKey(s, key, id)
  {
    if |s| == 0 then None
    else if key(s[0]) == id then Some(0)
    else match FirstIndex(s[1..], key, id)
      case None =>
        assert forall j :: 1 <= j < |s| ==> s[j] == s[1..][j - 1];
        None
      case Some(k) => Some(k + 1)
  }

  /** The records `filter(x => x.id !== id)` keeps, in their original order. */
  function RemoveKey<T(==,!new)>(s: seq<T>, key: T -> string, id: string): (r: seq<T>)
    ensures |r| <= |s|
    ensures forall x :: x in r <==> x in s && key(x) != id
    ensures !HasKey(r, key, id)
  {
    if |s| == 0 then []
    else if key(s[0]) == id then RemoveKey(s[1..], key, id)
    else [s[0]] + RemoveKey(s[1..], key, id)
  }

  /** Filtering works record by record, so it keeps the order of what it keeps. */
  lemma {:induction false} RemoveKeyAppend<T(!new)>(a: seq<T>, b: seq<T>, key: T -> string, id: string)
    ensures RemoveKey(a + b, key, id) == RemoveKey(a, key, id) + RemoveKey(b, key, id)
  {
    if |a| == 0 {
      assert a + b == b;
    } else {
      assert (a + b)[1..] == a[1..] + b;
      RemoveKeyAppend(a[1..], b, key, id);
    }
  }

  /** Filtering out an id nobody carries changes nothing. */
  lemma {:induction false} RemoveKeyAbsent<T(!new)>(s: seq<T>, key: T -> string, id: string)
    requires !HasKey(s, key, id)
    ensures RemoveKey(s, key, id) == s
  {
    if |s| > 0 {
      assert key(s[0]) != id;
      assert !HasKey(s[1..], key, id) by {
        forall j | 0 <= j < |s[1..]| ensures key(s[1..][j]) != id {
          assert s[1..][j] == s[j + 1];
        }
      }
      RemoveKeyAbsent(s[1..], key, id);
      assert s == [s[0]] + s[1..];
    }
  }

  /** When ids are unique, filtering out the id of the record at `k` removes
      exactly that record and keeps the rest in order. */
  lemma {:induction false} RemoveKeyUniqueAt<T(!new)>(s: seq<T>, key: T -> string, k: nat)
    requires UniqueKeys(s, key) && k < |s|
    ensures RemoveKey(s, key, key(s[k])) == s[..k] + s[k + 1..]
  {
    var id := key(s[k]);
    assert forall i :: 0 <= i < |s[1..]| ==> s[1..][i] == s[i + 1];
    if k == 0 {
      RemoveKeyAbsent(s[1..], key, id);
    } else {
      RemoveKeyUniqueAt(s[1..], key, k - 1);
      assert s[..k] + s[k + 1..] == [s[0]] + (s[1..][..k - 1] + s[1..][k..]);
    }
  }

  /** Filtering never makes two kept records share an id. */
  lemma {:induction false} RemoveKeyKeepsUnique<T(!new)>(s: seq<T>, key: T -> string, id: string)
    requires UniqueKeys(s, key)
    ensures UniqueKeys(RemoveKey(s, key, id), key)
  {
    if |s| > 0 {
      var rest := RemoveKey(s[1..], key, id);
      assert UniqueKeys(s[1..], key) by {
        forall i, j | 0 <= i < j < |s[1..]| ensures key(s[1..][i]) != key(s[1..][j]) {
          assert s[1..][i] == s[i + 1] && s[1..][j] == s[j + 1];
        }
      }
      RemoveKeyKeepsUnique(s[1..], key, id);
      if key(s[0]) != id {
        forall x | x in rest ensures key(x) != key(s[0]) {
          assert x in s[1..];
          var j :| 0 <= j < |s[1..]| && s[1..][j] == x;
          assert s[1..][j] == s[j + 1];
        }
        var r := [s[0]] + rest;
        forall i, j | 0 <= i < j < |r| ensures key(r[i]) != key(r[j]) {
          if i == 0 {
            assert r[j] == rest[j - 1] && r[j] in rest;
          } else {
            assert r[i] == rest[i - 1] && r[j] == rest[j - 1];
          }
        }
      }
    }
  }

  /** Two lists whose records carry the same ids position by position are
      searched alike: `find` stops at the same place in both. */
  lemma {:induction false} FirstIndexSameKeys<T, U>(s: seq<T>, t: seq<U>, keyS: T -> string, keyT: U -> string, id: string)
    requires |s| == |t|
    requires forall i :: 0 <= i < |s| ==> keyS(s[i]) == keyT(t[i])
    ensures FirstIndex(s, keyS, id) == FirstIndex(t, keyT, id)
  {
    if |s| > 0 && keyS(s[0]) != id {
      assert forall i :: 0 <= i < |s[1..]| ==> s[1..][i] == s[i + 1] && t[1..][i] == t[i + 1];
      FirstIndexSameKeys(s[1..], t[1..], keyS, keyT, id);
    }
  }

  /** Replacing one record by a record with the same id keeps ids unique. */
  lemma SameKeyUpdateKeepsUnique<T>(s: seq<T>, key: T -> string, k: nat, x: T)
    requires UniqueKeys(s, key) && k < |s| && key(x) == key(s[k])
    ensures UniqueKeys(s[k := x], key)
  {
    var r := s[k := x];
    forall i, j | 0 <= i < j < |r| ensures key(r[i]) != key(r[j]) {
      assert key(r[i]) == key(s[i]) && key(r[j]) == key(s[j]);
    }
  }

  /** Appending a record under an id nobody carries keeps ids unique. */
  lemma AppendFreshKeepsUnique<T>(s: seq<T>, key: T -> string, x: T)
    requires UniqueKeys(s, key) && !HasKey(s, key, key(x))
    ensures UniqueKeys(s + [x], key)
  {
    var r := s + [x];
    forall i, j | 0 <= i < j < |r| ensures key(r[i]) != key(r[j]) {
      if j == |s| {
        assert r[i] == s[i];
      } else {
        assert r[i] == s[i] && r[j] == s[j];
      }
    }
  }

  /** A list that grew at the end still carries every id it carried. */
  lemma HasKeyGrow<T>(s: seq<T>, t: seq<T>, key: T -> string, id: string)
    requires |s| <= |t| && t[..|s|] == s && HasKey(s, key, id)
    ensures HasKey(t, key, id)
  {
    var i :| 0 <= i < |s| && key(s[i]) == id;
    assert t[i] == t[..|s|][i];
  }

  /** `find` over a list that grew at the end stops where it stopped before,
      if the id was already there. */
  lemma {:induction false} FirstIndexAppend<T>(s: seq<T>, t: seq<T>, key: T -> string, id: string)
    requires HasKey(s, key, id)
    ensures FirstIndex(s + t, key, id) == FirstIndex(s, key, id)
  {
    if key(s[0]) != id {
      assert (s + t)[1..] == s[1..] + t;
      var j :| 0 <= j < |s| && key(s[j]) == id;
      assert s[1..][j - 1] == s[j];
      FirstIndexAppend(s[1..], t, key, id);
    }
  }
}
