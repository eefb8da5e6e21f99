/** The click registry (`InputManager`): the clickables a click is tested against, and the
    listeners told about every clickable that was hit. `C` is the type of the clickables and
    `L` the type of the listener objects; both are compared by identity. The DOM element, its
    event plumbing and the conversion of the mouse event into canvas coordinates are not part
    of this model: a click arrives as a canvas point. */
module InputManagers {
  import opened Wrappers
  import opened Utils
  import opened Vectors

  /** No element occurs twice. */
  ghost predicate Distinct<T>(s: seq<T>)
  {
    forall i, j :: 0 <= i < j < |s| ==> s[i] != s[j]
  }

  /** Removing one element of a list without duplicates keeps it without duplicates, and the
      element is gone from it. */
  lemma RemoveAtKeepsDistinct<T>(s: seq<T>, i: nat)
    requires Distinct(s) && i < |s|
    ensures Distinct(RemoveFromArrayAtIndex(s, i))
    ensures s[i] !in RemoveFromArrayAtIndex(s, i)
  {
    var r := RemoveFromArrayAtIndex(s, i);
    forall a, b | 0 <= a < b < |r|
      ensures r[a] != r[b]
    {
      var a', b' := if a < i then a else a + 1, if b < i then b else b + 1;
      assert r[a] == s[a'] && r[b] == s[b'];
    }
    forall a | 0 <= a < |r|
      ensures r[a] != s[i]
    {
      var a' := if a < i then a else a + 1;
      assert r[a] == s[a'];
    }
  }

  /** Appending an element that is not yet present keeps a list without duplicates. */
  lemma AppendKeepsDistinct<T>(s: seq<T>, x: T)
    requires Distinct(s) && x !in s
    ensures Distinct(s + [x])
  {
    var r := s + [x];
    forall a, b | 0 <= a < b < |r|
      ensures r[a] != r[b]
    {
      if b == |s| {
        assert r[a] == s[a];
      } else {
        assert r[a] == s[a] && r[b] == s[b];
      }
    }
  }

  // ---------------------------------------------------------------------------
  // Dispatch of one click
  // ---------------------------------------------------------------------------

  /** One call made while a click is dispatched: `clickable.OnClick`, or the handler of
      `listener` told that `clickable` was hit. */
  datatype Call<C, L> = OnClickCall(clickable: C) | HandlerCall(listener: L, clickable: C)

  /** The clickables, in registration order, that respond to the click: those not ignoring
      clicks whose `IsClicked` holds. */
  function Responding<C>(clickables: seq<C>, ignoring: C -> bool, isClicked: (C, Vector2) -> bool,
                         click: Vector2): seq<C>
  {
    if clickables == [] then []
    else
      var last := clickables[|clickables| - 1];
      Responding(clickables[..|clickables| - 1], ignoring, isClicked, click) +
        (if !ignoring(last) && isClicked(last, click) then [last] else [])
  }

  /** The calls for one clickable that was hit: its own `OnClick`, then every listener's
      handler in registration order. */
  function Notify<C, L>(c: C, listeners: seq<L>): seq<Call<C, L>>
  {
    [OnClickCall(c)] + seq(|listeners|, j requires 0 <= j < |listeners| => HandlerCall(listeners[j], c))
  }

  /** The calls for the clickables that were hit, one after the other. */
  function Dispatch<C, L>(hit: seq<C>, listeners: seq<L>): seq<Call<C, L>>
  {
    if hit == [] then [] else Dispatch(hit[..|hit| - 1], listeners) + Notify(hit[|hit| - 1], listeners)
  }

  /** A clickable responds exactly when it is registered, is not ignoring clicks and is hit. */
  lemma {:induction false} RespondingHas<C>(clickables: seq<C>, ignoring: C -> bool,
                                            isClicked: (C, Vector2) -> bool, click: Vector2, c: C)
    ensures c in Responding(clickables, ignoring, isClicked, click) <==>
      c in clickables && !ignoring(c) && isClicked(c, click)
  {
    if clickables != [] {
      var init := clickables[..|clickables| - 1];
      RespondingHas(init, ignoring, isClicked, click, c);
      assert clickables == init + [clickables[|clickables| - 1]];
    }
  }

  /** The responding clickables keep their registration order: they form a subsequence of
      the registered ones, so there are never more of them. */
  lemma {:induction false} RespondingShorter<C>(clickables: seq<C>, ignoring: C -> bool,
                                                isClicked: (C, Vector2) -> bool, click: Vector2)
    ensures |Responding(clickables, ignoring, isClicked, click)| <= |clickables|
  {
    if clickables != [] {
      RespondingShorter(clickables[..|clickables| - 1], ignoring, isClicked, click);
    }
  }

  /** Every clickable that was hit produces exactly one `OnClick` and one call per listener. */
  lemma {:induction false} DispatchLength<C, L>(hit: seq<C>, listeners: seq<L>)
    ensures |Dispatch(hit, listeners)| == |hit| * (1 + |listeners|)
  {
    if hit != [] {
      var m := 1 + |listeners|;
      DispatchLength(hit[..|hit| - 1], listeners);
      assert |Notify(hit[|hit| - 1], listeners)| == m;
      assert (|hit| - 1) * m + m == |hit| * m;
    }
  }

  /** `OnClick` is called on a clickable exactly when it was hit, and a listener's handler is
      told about a clickable exactly when the listener is registered and the clickable was hit. */
  lemma {:induction false} DispatchHas<C, L>(hit: seq<C>, listeners: seq<L>, c: C, l: L)
    ensures OnClickCall(c) in Dispatch(hit, listeners) <==> c in hit
    ensures HandlerCall(l, c) in Dispatch(hit, listeners) <==> c in hit && l in listeners
  {
    if hit != [] {
      var init, last := hit[..|hit| - 1], hit[|hit| - 1];
      DispatchHas(init, listeners, c, l);
      assert hit == init + [last];
      var n := Notify(last, listeners);
      assert OnClickCall(c) in n <==> c == last by {
        if c == last {
          assert n[0] == OnClickCall(c);
        }
      }
      assert HandlerCall(l, c) in n <==> c == last && l in listeners by {
        if HandlerCall(l, c) in n {
          var k :| 0 <= k < |n| && n[k] == HandlerCall(l, c);
          assert n[k] == HandlerCall(listeners[k - 1], last);
        }
        if c == last && l in listeners {
          var j :| 0 <= j < |listeners| && listeners[j] == l;
          assert n[j + 1] == HandlerCall(l, c);
        }
      }
    }
  }

  class InputManager<C(==), L(==)> {
    /** The registered clickables, in registration order. */
    var clickables: seq<C>
    /** The `listener` of every `ClickAnyListener` entry, in registration order; the bound
        handler beside it is the listener's own `OnClickAny`. */
    var listeners: seq<L>

    /** What registration guarantees: nothing is registered twice. */
    ghost predicate Valid()
      reads this
    {
      Distinct(clickables) && Distinct(listeners)
    }

    constructor()
      ensures Valid() && clickables == [] && listeners == []
    {
      clickables := [];
      listeners := [];
    }

    /** Lines 25-30: an error for a clickable already registered; otherwise it is appended. */
    method RegisterClickable(c: C) returns (r: Outcome)
      requires Valid()
      modifies this`clickables
      ensures Valid() && listeners == old(listeners)
      ensures r.Fail? <==> c in old(clickables)
      ensures r.Pass? ==> clickables == old(clickables) + [c]
      ensures r.Fail? ==> clickables == old(clickables)
    {
      if IsElementInArray(clickables, c) {
        return Fail(Thrown("This clickable is already registered"));
      }
      AppendKeepsDistinct(clickables, c);
      clickables := clickables + [c];
      r := Pass;
    }

    /** Lines 32-35: removes the clickable if it is registered and says whether it was. */
    method TryUnregisterClickable(c: C) returns (removed: bool)
      requires Valid()
      modifies this`clickables
      ensures Valid() && listeners == old(listeners)
      ensures removed <==> c in old(clickables)
      ensures clickables == RemoveFromArray(old(clickables), c)
      ensures c !in clickables
    {
      var (rest, found) := TryRemoveFromArray(clickables, c);
      if found {
        RemoveAtKeepsDistinct(clickables, IndexOf(clickables, c));
      }
      clickables := rest;
      removed := found;
    }

    /** Lines 37-40 as written: the guard negates the method `TryUnregisterClickable`
        itself, which is never falsy, instead of the result of calling it. So nothing is
        removed and nothing is thrown, whether or not `c` is registered. */
    method UnregisterClickableAsWritten(c: C) returns (r: Outcome)
      modifies this`clickables
      ensures clickables == old(clickables) && listeners == old(listeners)
      ensures r == Pass
      // a registered clickable stays registered, and an unknown one raises no error
      ensures c in old(clickables) ==> c in clickables
    {
      r := Pass;
    }

    /** Lines 37-40 as intended: the clickable is removed, and an error is raised exactly
        when it was not registered. */
    method UnregisterClickable(c: C) returns (r: Outcome)
      requires Valid()
      modifies this`clickables
      ensures Valid() && listeners == old(listeners)
      ensures r.Fail? <==> c !in old(clickables)
      ensures clickables == RemoveFromArray(old(clickables), c)
      ensures c !in clickables
    {
      var removed := TryUnregisterClickable(c);
      if !removed {
        return Fail(Thrown("This clickable is not registered"));
      }
      r := Pass;
    }

    /** Lines 43-47: an error for a listener already registered; otherwise exactly one entry
        is appended for it. */
    method AddOnClickAnyListener(l: L) returns (r: Outcome)
      requires Valid()
      modifies this`listeners
      ensures Valid() && clickables == old(clickables)
      ensures r.Fail? <==> l in old(listeners)
      ensures r.Pass? ==> listeners == old(listeners) + [l]
      ensures r.Fail? ==> listeners == old(listeners)
    {
      var registered := IsListenerRegistered(l);
      if registered {
        return Fail(Thrown("This handler is already registered"));
      }
      AppendKeepsDistinct(listeners, l);
      listeners := listeners + [l];
      r := Pass;
    }

    /** Lines 50-64: the first entry of the listener is removed, the others keep their order;
        an error when there is none. */
    method RemoveOnClickAnyListener(l: L) returns (r: Outcome)
      requires Valid()
      modifies this`listeners
      ensures Valid() && clickables == old(clickables)
      ensures r.Fail? <==> l !in old(listeners)
      ensures r.Pass? ==> listeners == RemoveFromArrayAtIndex(old(listeners), IndexOf(old(listeners), l))
      ensures r.Fail? ==> listeners == old(listeners)
      ensures l !in listeners
    {
      var wasRemoved := false;
      var i := 0;
      while i < |listeners|
        invariant 0 <= i <= |listeners| && !wasRemoved
        invariant listeners == old(listeners) && l !in listeners[..i]
      {
        if listeners[i] == l {
          assert IndexOf(listeners, l) == i;
          RemoveAtKeepsDistinct(listeners, i);
          listeners := RemoveFromArrayAtIndex(listeners, i);
          wasRemoved := true;
          break;
        }
        i := i + 1;
      }
      if !wasRemoved {
        assert listeners[..i] == listeners;
        return Fail(Thrown("This listener is not registered. IsListenerRegistered: false"));
      }
      r := Pass;
    }

    /** Lines 66-79: scans the entries and stops at the first one of the listener. */
    method IsListenerRegistered(l: L) returns (isRegistered: bool)
      ensures isRegistered <==> l in listeners
    {
      isRegistered := false;
      for i := 0 to |listeners|
        invariant !isRegistered ==> l !in listeners[..i]
        invariant isRegistered ==> l in listeners
      {
        if listeners[i] == l {
          isRegistered := true;
          break;
        }
      }
      assert !isRegistered ==> listeners[..|listeners|] == listeners;
    }

    /** Lines 93-94 for one clickable that was hit: its `OnClick`, then every listener's
        handler in registration order. Returns the calls made. */
    method NotifyListeners(c: C) returns (calls: seq<Call<C, L>>)
      ensures calls == Notify(c, listeners)
    {
      var ls := listeners;
      calls := [OnClickCall(c)];
      for j := 0 to |ls|
        invariant |calls| == j + 1 && calls[0] == OnClickCall(c)
        invariant forall k :: 0 <= k < j ==> calls[k + 1] == HandlerCall(ls[k], c)
      {
        calls := calls + [HandlerCall(ls[j], c)];
      }
      assert forall k :: 0 <= k < |calls| ==> calls[k] == Notify(c, ls)[k];
    }

    /** Lines 89-96: in registration order, every clickable not ignoring clicks whose
        `IsClicked` holds gets `OnClick`, and then every listener's handler, in registration
        order, is told about it. `ignoring` and `isClicked` read the clickables' `ignoreClicks`
        and `IsClicked` as they stand when the click arrives. Returns the calls made. */
    method OnClick(click: Vector2, ignoring: C -> bool, isClicked: (C, Vector2) -> bool)
      returns (calls: seq<Call<C, L>>)
      ensures calls == Dispatch(Responding(clickables, ignoring, isClicked, click), listeners)
    {
      calls := [];
      for i := 0 to |clickables|
        invariant calls == Dispatch(Responding(clickables[..i], ignoring, isClicked, click), listeners)
      {
        var c := clickables[i];
        ghost var before := Responding(clickables[..i], ignoring, isClicked, click);
        assert clickables[..i + 1][..i] == clickables[..i] && clickables[..i + 1][i] == c;
        if !ignoring(c) && isClicked(c, click) {
          var notified := NotifyListeners(c);
          assert (before + [c])[..|before|] == before;
          calls := calls + notified;
        } else {
          assert before + [] == before;
        }
      }
      assert clickables[..|clickables|] == clickables;
    }
  }
}
