/** Toast notifications: a list of messages shown in the corner, each with an
    id from a counter, removed when dismissed or when its timer runs out. */
module Toast {
  import opened Wrappers

  datatype ToastKind = Error | Success | Info

  datatype Toast = Toast(id: int, message: string, kind: ToastKind)

  /** The defaults of `showToast`'s optional parameters. */
  const DefaultKind := Error
  const DefaultDurationMs := 6000

  /** Ids strictly increase along the list. */
  predicate Ascending(ts: seq<Toast>) {
    forall i, j :: 0 <= i < j < |ts| ==> ts[i].id < ts[j].id
  }

  /** `prev.filter(t => t.id !== id)`. */
  function Without(ts: seq<Toast>, id: int): (r: seq<Toast>)
    ensures |r| <= |ts|
    ensures forall t :: t in r <==> t in ts && t.id != id
  {
    if ts == [] then []
    else (if ts[0].id == id then [] else [ts[0]]) + Without(ts[1..], id)
  }

  /** Removal distributes over concatenation, so it keeps the order of the rest. */
  lemma {:induction false} WithoutAppend(a: seq<Toast>, b: seq<Toast>, id: int)
    ensures Without(a + b, id) == Without(a, id) + Without(b, id)
    decreases |a|
  {
    if a == [] {
      assert a + b == b;
    } else {
      assert (a + b)[0] == a[0];
      assert (a + b)[1..] == a[1..] + b;
      WithoutAppend(a[1..], b, id);
    }
  }

  /** Removing an id nobody has changes nothing: `dismiss` of an absent or
      already removed toast is a no-op. */
  lemma {:induction false} WithoutAbsent(ts: seq<Toast>, id: int)
    requires forall t :: t in ts ==> t.id != id
    ensures Without(ts, id) == ts
    decreases |ts|
  {
    if ts != [] {
      assert ts[0] in ts;
      assert forall t :: t in ts[1..] ==> t in ts;
      WithoutAbsent(ts[1..], id);
      assert [ts[0]] + ts[1..] == ts;
    }
  }

  /** Removing twice is removing once, so an expiry after a dismissal of the
      same toast does nothing. */
  lemma WithoutIdempotent(ts: seq<Toast>, id: int)
    ensures Without(Without(ts, id), id) == Without(ts, id)
  {
    WithoutAbsent(Without(ts, id), id);
  }

  /** In an ascending list, the toasts before one have smaller ids and those
      after it larger ones. */
  lemma AscendingAround(a: seq<Toast>, t: Toast, b: seq<Toast>)
    requires Ascending(a + [t] + b)
    ensures forall u :: u in a ==> u.id < t.id
    ensures forall u :: u in b ==> t.id < u.id
  {
    var s := a + [t] + b;
    assert s[|a|] == t;
    forall u | u in a ensures u.id < t.id {
      var i :| 0 <= i < |a| && a[i] == u;
      assert s[i] == u;
    }
    forall u | u in b ensures t.id < u.id {
      var i :| 0 <= i < |b| && b[i] == u;
      assert s[|a| + 1 + i] == u;
    }
  }

  /** In an ascending list, removing a toast's id removes exactly that toast. */
  lemma WithoutRemovesOne(a: seq<Toast>, t: Toast, b: seq<Toast>)
    requires Ascending(a + [t] + b)
    ensures Without(a + [t] + b, t.id) == a + b
  {
    AscendingAround(a, t, b);
    WithoutAppend(a + [t], b, t.id);
    WithoutAppend(a, [t], t.id);
    WithoutAbsent(a, t.id);
    WithoutAbsent(b, t.id);
    assert Without([t], t.id) == [];
    assert a + [] == a;
  }

  /** Removal keeps the list ascending. */
  lemma {:induction false} WithoutAscending(ts: seq<Toast>, id: int)
    requires Ascending(ts)
    ensures Ascending(Without(ts, id))
    decreases |ts|
  {
    if ts != [] {
      assert Ascending(ts[1..]);
      WithoutAscending(ts[1..], id);
      var rest := Without(ts[1..], id);
      forall u | u in rest ensures ts[0].id < u.id {
        var j :| 0 <= j < |ts[1..]| && ts[1..][j] == u;
        assert ts[j + 1] == u;
      }
    }
  }

  /** A dismissal and an expiry give the same list in either order. */
  lemma {:induction false} WithoutCommutes(ts: seq<Toast>, i: int, j: int)
    ensures Without(Without(ts, i), j) == Without(Without(ts, j), i)
    decreases |ts|
  {
    if ts != [] {
      var h, t := [ts[0]], ts[1..];
      assert ts == h + t;
      WithoutAppend(h, t, i);
      WithoutAppend(h, t, j);
      WithoutAppend(Without(h, i), Without(t, i), j);
      WithoutAppend(Without(h, j), Without(t, j), i);
      WithoutCommutes(t, i, j);
      assert Without(Without(h, i), j) == Without(Without(h, j), i) by {
        assert h[1..] == [];
      }
    }
  }

  /** The toast provider: the list on screen and the id counter. */
  class ToastProvider {
    var toasts: seq<Toast>
    var lastId: int

    /** The counter never goes below zero; ids are positive, at most the
        counter, and ascending. */
    predicate Valid()
      reads this
    {
      0 <= lastId && Ascending(toasts) && forall t :: t in toasts ==> 0 < t.id <= lastId
    }

    constructor ()
      ensures Valid() && toasts == [] && lastId == 0
    {
      toasts := [];
      lastId := 0;
    }

    /** `toasts.length > 0`: the container is rendered only for a non-empty list. */
    predicate ContainerShown()
      reads this
    {
      |toasts| > 0
    }

    /** `showToast`: the counter is incremented and its new value is the id of
        one toast appended at the end; the returned delay is when its expiry
        is due. */
    method ShowToast(message: string, kind: Option<ToastKind>, durationMs: Option<int>) returns (id: int, expiresAfterMs: int)
      requires Valid()
      modifies this
      ensures Valid()
      ensures id == old(lastId) + 1 && lastId == id
      ensures toasts == old(toasts) + [Toast(id, message, kind.GetOr(DefaultKind))]
      ensures expiresAfterMs == durationMs.GetOr(DefaultDurationMs)
      ensures ContainerShown()
    {
      FreshIdIsNew(toasts, lastId, message, kind.GetOr(DefaultKind));
      lastId := lastId + 1;
      id := lastId;
      toasts := toasts + [Toast(id, message, kind.GetOr(DefaultKind))];
      expiresAfterMs := durationMs.GetOr(DefaultDurationMs);
    }

    /** `dismiss`: every toast with that id leaves, the rest keep their order. */
    method Dismiss(id: int)
      requires Valid()
      modifies this
      ensures Valid()
      ensures toasts == Without(old(toasts), id) && lastId == old(lastId)
    {
      WithoutAscending(toasts, id);
      toasts := Without(toasts, id);
    }

    /** The timer callback: the same removal as `dismiss`. */
    method Expire(id: int)
      requires Valid()
      modifies this
      ensures Valid()
      ensures toasts == Without(old(toasts), id) && lastId == old(lastId)
    {
      Dismiss(id);
    }
  }

  /** A fresh id is larger than every id in a valid list, so it is unique. */
  lemma FreshIdIsNew(ts: seq<Toast>, lastId: int, message: string, kind: ToastKind)
    requires Ascending(ts) && forall t :: t in ts ==> 0 < t.id <= lastId
    ensures Ascending(ts + [Toast(lastId + 1, message, kind)])
    ensures forall t :: t in ts ==> t.id != lastId + 1
  {
    var s := ts + [Toast(lastId + 1, message, kind)];
    forall i, j | 0 <= i < j < |s| ensures s[i].id < s[j].id {
      if j < |ts| {
        assert s[i] == ts[i] && s[j] == ts[j];
      } else {
        assert s[i] in ts;
      }
    }
  }
}
