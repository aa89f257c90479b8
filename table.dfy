/** The preset's brightness table: a dictionary from symbols to brightness
    that remembers insertion order, kept as an association list. */
module Table {

  datatype Option<T> = None | Some(value: T)

  type Entry = (char, real)

  /** Entries in insertion order; a well-formed table has unique keys. */
  type Table = seq<Entry>

  predicate UniqueKeys(t: Table)
  {
    forall i, j :: 0 <= i < j < |t| ==> t[i].0 != t[j].0
  }

  function KeySet(t: Table): set<char>
  {
    set e | e in t :: e.0
  }

  /** The position of key `k`, or |t| when `k` is absent. */
  function Find(t: Table, k: char): (i: nat)
    ensures i <= |t|
    ensures i < |t| ==> t[i].0 == k
    ensures forall j :: 0 <= j < i ==> t[j].0 != k
  {
    if |t| == 0 then 0
    else if t[0].0 == k then 0
    else 1 + Find(t[1..], k)
  }

  /** Dictionary lookup. */
  function Lookup(t: Table, k: char): (r: Option<real>)
    ensures r.Some? <==> k in KeySet(t)
    ensures r.Some? ==> (k, r.value) in t
  {
    var i := Find(t, k);
    if i < |t| then Some(t[i].1) else None
  }

  /** In a table with unique keys, the lookup of a key finds its own entry. */
  lemma LookupAt(t: Table, i: nat)
    requires UniqueKeys(t) && i < |t|
    ensures Lookup(t, t[i].0) == Some(t[i].1)
  {
  }

  /** Dictionary assignment `t[k] = v`: an existing key keeps its position
      and takes the new value; a new key is appended at the end. */
  function Assign(t: Table, k: char, v: real): (r: Table)
    requires UniqueKeys(t)
    ensures UniqueKeys(r)
  {
    var i := Find(t, k);
    if i < |t| then t[i := (k, v)] else t + [(k, v)]
  }

  /** After the assignment `k` maps to `v`, every other key keeps its
      value, the key set gains `k`, existing keys keep their positions and
      a new key goes to the end. */
  lemma AssignSpec(t: Table, k: char, v: real)
    requires UniqueKeys(t)
    ensures var r := Assign(t, k, v);
            && Lookup(r, k) == Some(v)
            && (forall k' :: k' != k ==> Lookup(r, k') == Lookup(t, k'))
            && KeySet(r) == KeySet(t) + {k}
            && |r| == (if k in KeySet(t) then |t| else |t| + 1)
            && (forall i :: 0 <= i < |t| ==> r[i].0 == t[i].0)
            && (forall i :: 0 <= i < |t| && t[i].0 != k ==> r[i] == t[i])
            && (k !in KeySet(t) ==> r[|t|] == (k, v))
  {
    var r := Assign(t, k, v);
    var i := Find(t, k);
    if i < |t| {
      assert forall j :: 0 <= j < |r| ==> r[j].0 == t[j].0;
      assert KeySet(r) == KeySet(t) by {
        forall c | c in KeySet(t) ensures c in KeySet(r) {
          var e :| e in t && e.0 == c;
          var j :| 0 <= j < |t| && t[j] == e;
          assert r[j].0 == c;
        }
      }
      LookupAt(r, i);
      forall k' | k' != k ensures Lookup(r, k') == Lookup(t, k') {
        if k' in KeySet(t) {
          var e :| e in t && e.0 == k';
          var j :| 0 <= j < |t| && t[j] == e;
          LookupAt(t, j);
          LookupAt(r, j);
        }
      }
    } else {
      LookupAt(r, |t|);
      forall k' | k' != k ensures Lookup(r, k') == Lookup(t, k') {
        if k' in KeySet(t) {
          var e :| e in t && e.0 == k';
          var j :| 0 <= j < |t| && t[j] == e;
          LookupAt(t, j);
          LookupAt(r, j);
        }
      }
    }
  }

  /** Assignment adds its key to the key set and no other. */
  lemma AssignKeySet(t: Table, k: char, v: real)
    requires UniqueKeys(t)
    ensures KeySet(Assign(t, k, v)) == KeySet(t) + {k}
  {
    AssignSpec(t, k, v);
  }

  /** The table after assigning every entry of `s`, first to last. */
  function Store(t: Table, s: seq<Entry>): (r: Table)
    requires UniqueKeys(t)
    ensures UniqueKeys(r)
    ensures |t| <= |r|
  {
    if |s| == 0 then t
    else Assign(Store(t, s[..|s| - 1]), s[|s| - 1].0, s[|s| - 1].1)
  }

  /** Storing one more entry assigns it to the table stored so far. */
  lemma StoreAppend(t: Table, s: seq<Entry>, e: Entry)
    requires UniqueKeys(t)
    ensures Store(t, s + [e]) == Assign(Store(t, s), e.0, e.1)
  {
    assert (s + [e])[..|s|] == s;
  }

  /** Storing entries adds exactly their keys to the key set. */
  lemma {:induction false} StoreKeySet(t: Table, s: seq<Entry>)
    requires UniqueKeys(t)
    ensures KeySet(Store(t, s)) == KeySet(t) + KeySet(s)
  {
    if |s| > 0 {
      var init := s[..|s| - 1];
      StoreKeySet(t, init);
      AssignKeySet(Store(t, init), s[|s| - 1].0, s[|s| - 1].1);
      assert s == init + [s[|s| - 1]];
      assert KeySet(s) == KeySet(init) + {s[|s| - 1].0};
    }
  }

  /** The value stored for a key is the one of its last occurrence in `s`. */
  lemma {:induction false} StoreLastWins(t: Table, s: seq<Entry>, i: nat)
    requires UniqueKeys(t)
    requires i < |s|
    requires forall j :: i < j < |s| ==> s[j].0 != s[i].0
    ensures Lookup(Store(t, s), s[i].0) == Some(s[i].1)
  {
    var init := s[..|s| - 1];
    AssignSpec(Store(t, init), s[|s| - 1].0, s[|s| - 1].1);
    if i < |s| - 1 {
      StoreLastWins(t, init, i);
    }
  }

  /** A key that `s` never mentions keeps its value. */
  lemma {:induction false} StoreUntouched(t: Table, s: seq<Entry>, k: char)
    requires UniqueKeys(t)
    requires k !in KeySet(s)
    ensures Lookup(Store(t, s), k) == Lookup(t, k)
  {
    if |s| > 0 {
      var init := s[..|s| - 1];
      assert s == init + [s[|s| - 1]];
      assert KeySet(s) == KeySet(init) + {s[|s| - 1].0};
      StoreUntouched(t, init, k);
      AssignSpec(Store(t, init), s[|s| - 1].0, s[|s| - 1].1);
    }
  }

  /** Storing never moves an existing key, and an entry whose key `s` never
      mentions stays exactly where and what it was. */
  lemma {:induction false} StoreKeepsPositions(t: Table, s: seq<Entry>, i: nat)
    requires UniqueKeys(t)
    requires i < |t|
    ensures Store(t, s)[i].0 == t[i].0
    ensures t[i].0 !in KeySet(s) ==> Store(t, s)[i] == t[i]
  {
    if |s| > 0 {
      var init := s[..|s| - 1];
      assert s == init + [s[|s| - 1]];
      assert KeySet(s) == KeySet(init) + {s[|s| - 1].0};
      StoreKeepsPositions(t, init, i);
      AssignSpec(Store(t, init), s[|s| - 1].0, s[|s| - 1].1);
    }
  }
}
