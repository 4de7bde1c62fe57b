/** The browser's `wishOffs` state, a `{ [staffId]: number[] }` object, held
    as its entries in order. Object spread with a computed key is the only
    update the page makes to it. */
module WishTable {
  import opened Wrappers

  type Table = seq<(string, seq<int>)>

  /** A JavaScript object never holds a key twice. */
  predicate UniqueKeys(t: Table) {
    forall i, j :: 0 <= i < j < |t| ==> t[i].0 != t[j].0
  }

  /** `t[k]`, `None` standing for `undefined`. */
  function Lookup(t: Table, k: string): (r: Option<seq<int>>)
    ensures r.None? <==> forall i :: 0 <= i < |t| ==> t[i].0 != k
    ensures r.Some? ==> exists i :: 0 <= i < |t| && t[i].0 == k && t[i].1 == r.value
  {
    if |t| == 0 then None
    else if t[0].0 == k then Some(t[0].1)
    else Lookup(t[1..], k)
  }

  /** `t[k] || []`: the list of `k`, empty when `k` has none. */
  function Current(t: Table, k: string): seq<int> {
    Lookup(t, k).GetOr([])
  }

  /** `{ ...t, [k]: v }`: an existing key keeps its position and takes the
      new value; a new key goes at the end. */
  function Update(t: Table, k: string, v: seq<int>): (r: Table)
    ensures Lookup(r, k) == Some(v)
    ensures forall k2 :: k2 != k ==> Lookup(r, k2) == Lookup(t, k2)
  {
    if |t| == 0 then [(k, v)]
    else if t[0].0 == k then [(k, v)] + t[1..]
    else [t[0]] + Update(t[1..], k, v)
  }

  /** The update keeps every existing key in its place and appends a new
      key at the end. */
  lemma {:induction false} UpdateKeys(t: Table, k: string, v: seq<int>)
    ensures |Update(t, k, v)| == |t| + (if Lookup(t, k).None? then 1 else 0)
    ensures forall i :: 0 <= i < |t| ==> Update(t, k, v)[i].0 == t[i].0
    ensures Lookup(t, k).None? ==> Update(t, k, v)[|t|] == (k, v)
  {
    var r := Update(t, k, v);
    if |t| > 0 && t[0].0 == k {
      assert r == [(k, v)] + t[1..];
      assert Lookup(t, k) == Some(t[0].1);
      forall i | 0 < i < |t|
        ensures r[i].0 == t[i].0
      {
        assert r[i] == t[1..][i - 1];
      }
    } else if |t| > 0 {
      UpdateKeys(t[1..], k, v);
      assert Lookup(t, k) == Lookup(t[1..], k);
      assert r == [t[0]] + Update(t[1..], k, v);
      forall i | 0 < i < |t|
        ensures r[i].0 == t[i].0
      {
        assert r[i] == Update(t[1..], k, v)[i - 1];
        assert t[i] == t[1..][i - 1];
      }
    }
  }

  /** A key the object does not have goes at the end, after every entry. */
  lemma {:induction false} UpdateAppends(t: Table, k: string, v: seq<int>)
    requires Lookup(t, k).None?
    ensures Update(t, k, v) == t + [(k, v)]
  {
    if |t| > 0 {
      assert t[0].0 != k;
      assert Lookup(t[1..], k) == Lookup(t, k);
      assert Update(t, k, v) == [t[0]] + Update(t[1..], k, v);
      UpdateAppends(t[1..], k, v);
      assert [t[0]] + (t[1..] + [(k, v)]) == t + [(k, v)];
    }
  }

  /** The update keeps keys unique: a new key is appended after keys that
      all differ from it, and an existing key keeps every key in place. */
  lemma UpdateUnique(t: Table, k: string, v: seq<int>)
    requires UniqueKeys(t)
    ensures UniqueKeys(Update(t, k, v))
  {
    var r := Update(t, k, v);
    UpdateKeys(t, k, v);
    if Lookup(t, k).None? {
      UpdateAppends(t, k, v);
      assert r == t + [(k, v)];
      forall i, j | 0 <= i < j < |r|
        ensures r[i].0 != r[j].0
      {
        assert r[i] == t[i];
        if j < |t| {
          assert r[j] == t[j];
        } else {
          assert r[j] == (k, v);
        }
      }
    } else {
      assert |r| == |t|;
      forall i, j | 0 <= i < j < |r|
        ensures r[i].0 != r[j].0
      {
        assert r[i].0 == t[i].0 && r[j].0 == t[j].0;
      }
    }
  }

  /** Writing back the value a key already has changes nothing. */
  lemma {:induction false} UpdateSame(t: Table, k: string, v: seq<int>)
    requires Lookup(t, k) == Some(v)
    ensures Update(t, k, v) == t
  {
    if t[0].0 != k {
      UpdateSame(t[1..], k, v);
    }
  }

  /** A second write to the same key overrides the first. */
  lemma {:induction false} UpdateUpdate(t: Table, k: string, v1: seq<int>, v2: seq<int>)
    ensures Update(Update(t, k, v1), k, v2) == Update(t, k, v2)
  {
    if |t| > 0 && t[0].0 != k {
      UpdateUpdate(t[1..], k, v1, v2);
    }
  }

  /** `Object.entries(t).filter(([, ds]) => ds.includes(day)).map(([id]) => id)`:
      the ids whose list holds `day`, in entry order. */
  function Wishers(t: Table, day: int): (ids: seq<string>)
    ensures |ids| <= |t|
  {
    if |t| == 0 then []
    else (if day in t[0].1 then [t[0].0] else []) + Wishers(t[1..], day)
  }

  /** A single entry contributes its id exactly when its list holds the day. */
  lemma WishersSingle(k: string, v: seq<int>, day: int)
    ensures Wishers([(k, v)], day) == (if day in v then [k] else [])
  {
    assert [(k, v)][1..] == [];
  }

  /** The wishers follow the entry order: those of a concatenation are the
      wishers of the first part, then those of the second. */
  lemma {:induction false} WishersConcat(t1: Table, t2: Table, day: int)
    ensures Wishers(t1 + t2, day) == Wishers(t1, day) + Wishers(t2, day)
  {
    if |t1| == 0 {
      assert t1 + t2 == t2;
    } else {
      var h := if day in t1[0].1 then [t1[0].0] else [];
      assert (t1 + t2)[0] == t1[0];
      assert (t1 + t2)[1..] == t1[1..] + t2;
      WishersConcat(t1[1..], t2, day);
      IdsAssoc(h, Wishers(t1[1..], day), Wishers(t2, day));
    }
  }

  /** Concatenation of id lists is associative. */
  lemma IdsAssoc(x: seq<string>, y: seq<string>, z: seq<string>)
    ensures x + (y + z) == (x + y) + z
  {
  }

  /** An id is among the wishers of a day exactly when an entry of that id
      lists the day. */
  lemma {:induction false} WishersIff(t: Table, day: int, id: string)
    ensures id in Wishers(t, day) <==> exists i :: 0 <= i < |t| && t[i].0 == id && day in t[i].1
  {
    if |t| > 0 {
      WishersIff(t[1..], day, id);
      if exists i :: 0 <= i < |t| && t[i].0 == id && day in t[i].1 {
        var i :| 0 <= i < |t| && t[i].0 == id && day in t[i].1;
        if i > 0 {
          assert t[1..][i - 1] == t[i];
        }
      }
    }
  }

  /** With unique keys, a staff member is a wisher of a day exactly when
      their own list holds it. */
  lemma WishersOfKey(t: Table, day: int, id: string)
    requires UniqueKeys(t)
    ensures id in Wishers(t, day) <==> day in Current(t, id)
  {
    WishersIff(t, day, id);
    if id in Wishers(t, day) {
      var i :| 0 <= i < |t| && t[i].0 == id && day in t[i].1;
      var j :| 0 <= j < |t| && t[j].0 == id && t[j].1 == Lookup(t, id).value;
      assert i == j;
    }
  }
}
