/**
 * The bodies found in ARDOUR's utils.h: the branch-free maximum f_max and the
 * two helpers that collect the automation controls of a list of routes or
 * stripables into a control list.
 *
 * A route or stripable is an opaque Item; the member-function accessor passed
 * to the helpers is a function from an Item to a possibly-null control.
 */
module Utils {
  import opened Wrappers

  // ---------------------------------------------------------------------
  // f_max
  // ---------------------------------------------------------------------

  /** fabsf over exact arithmetic. */
  function Abs(v: real): (r: real)
    ensures r >= 0.0 && (r == v || r == -v)
  {
    if v < 0.0 then -v else v
  }

  /** The reference maximum that f_max is meant to compute. */
  function Max(x: real, a: real): (m: real)
    ensures m >= x && m >= a
    ensures m == x || m == a
  {
    if x >= a then x else a
  }

  /** f_max: the larger of x and a, computed without a branch by four updates of x. */
  method FMax(x: real, a: real) returns (r: real)
    ensures r == Max(x, a)
    ensures r >= x && r >= a && (r == x || r == a)
  {
    r := x;
    r := r - a;
    r := r + Abs(r);
    r := r * 0.5;
    r := r + a;
  }

  // ---------------------------------------------------------------------
  // Route / stripable list to control list
  // ---------------------------------------------------------------------

  /**
   * The specification of both helpers: the accessor's results over the items,
   * in order, with the null results dropped.
   */
  function FilterMap<Item, Control>(items: seq<Item>, getControl: Item -> Option<Control>): (r: seq<Control>)
    ensures |r| <= |items|
    decreases |items|
  {
    if items == [] then []
    else
      var rest := FilterMap(items[1..], getControl);
      match getControl(items[0])
      case Some(c) => [c] + rest
      case None => rest
  }

  /** Where the control of items[i] lands in the result: the number of non-null results before i. */
  function Position<Item, Control>(items: seq<Item>, getControl: Item -> Option<Control>, i: nat): nat
    requires i <= |items|
  {
    |FilterMap(items[..i], getControl)|
  }

  /** Processing two lists one after the other is processing their concatenation. */
  lemma {:induction false} FilterMapConcat<Item, Control>(a: seq<Item>, b: seq<Item>, getControl: Item -> Option<Control>)
    ensures FilterMap(a + b, getControl) == FilterMap(a, getControl) + FilterMap(b, getControl)
    decreases |a|
  {
    if a == [] {
      assert a + b == b;
    } else {
      assert (a + b)[1..] == a[1..] + b;
      FilterMapConcat(a[1..], b, getControl);
    }
  }

  /** One more item appends its control, if it has one, and nothing else. */
  lemma FilterMapStep<Item, Control>(items: seq<Item>, getControl: Item -> Option<Control>, k: nat)
    requires k < |items|
    ensures FilterMap(items[..k + 1], getControl) ==
            FilterMap(items[..k], getControl) +
            (match getControl(items[k]) case Some(c) => [c] case None => [])
  {
    assert items[..k + 1] == items[..k] + [items[k]];
    FilterMapConcat(items[..k], [items[k]], getControl);
    assert [items[k]][1..] == [];
  }

  /** The result is exactly as long as the input if and only if no item yields a null control; then it is the controls item by item. */
  lemma {:induction false} FilterMapLengthExact<Item, Control>(items: seq<Item>, getControl: Item -> Option<Control>)
    ensures |FilterMap(items, getControl)| == |items| <==>
            forall i :: 0 <= i < |items| ==> getControl(items[i]).Some?
    ensures (forall i :: 0 <= i < |items| ==> getControl(items[i]).Some?) ==>
            forall i :: 0 <= i < |items| ==> FilterMap(items, getControl)[i] == getControl(items[i]).value
    decreases |items|
  {
    if items != [] {
      var tail := items[1..];
      FilterMapLengthExact(tail, getControl);
      assert forall i :: 1 <= i < |items| ==> items[i] == tail[i - 1];
      if getControl(items[0]).None? {
        assert |FilterMap(items, getControl)| < |items|;
      } else {
        assert (forall i :: 0 <= i < |items| ==> getControl(items[i]).Some?) <==>
               (forall i :: 0 <= i < |tail| ==> getControl(tail[i]).Some?);
      }
    }
  }

  /** The control of every item that has one appears in the result, at its Position. */
  lemma FilterMapKeeps<Item, Control>(items: seq<Item>, getControl: Item -> Option<Control>, i: nat)
    requires i < |items| && getControl(items[i]).Some?
    ensures Position(items, getControl, i) < |FilterMap(items, getControl)|
    ensures FilterMap(items, getControl)[Position(items, getControl, i)] == getControl(items[i]).value
  {
    assert items == items[..i] + items[i..];
    FilterMapConcat(items[..i], items[i..], getControl);
    assert items[i..][0] == items[i];
  }

  /** Relative order is preserved: a control from an earlier item lands strictly earlier. */
  lemma FilterMapPreservesOrder<Item, Control>(items: seq<Item>, getControl: Item -> Option<Control>, i: nat, j: nat)
    requires i < j < |items|
    requires getControl(items[i]).Some? && getControl(items[j]).Some?
    ensures Position(items, getControl, i) < Position(items, getControl, j) < |FilterMap(items, getControl)|
    ensures FilterMap(items, getControl)[Position(items, getControl, i)] == getControl(items[i]).value
    ensures FilterMap(items, getControl)[Position(items, getControl, j)] == getControl(items[j]).value
  {
    assert items[..j] == items[..i] + items[i..j];
    FilterMapConcat(items[..i], items[i..j], getControl);
    assert items[i..j][0] == items[i];
    FilterMapKeeps(items, getControl, i);
    FilterMapKeeps(items, getControl, j);
  }

  /** Every element of the result is the non-null control of some item, and it sits at that item's Position. */
  lemma {:induction false} FilterMapOrigin<Item, Control>(items: seq<Item>, getControl: Item -> Option<Control>, k: nat)
    returns (i: nat)
    requires k < |FilterMap(items, getControl)|
    ensures i < |items|
    ensures getControl(items[i]) == Some(FilterMap(items, getControl)[k])
    ensures Position(items, getControl, i) == k
    decreases |items|
  {
    var tail := items[1..];
    if getControl(items[0]).Some? && k == 0 {
      i := 0;
      assert items[..0] == [];
    } else {
      var kTail := if getControl(items[0]).Some? then k - 1 else k;
      var iTail := FilterMapOrigin(tail, getControl, kTail);
      i := iTail + 1;
      assert items[..i][1..] == tail[..iTail];
      assert items[..i] != [] && items[..i][0] == items[0];
    }
  }

  /**
   * stripable_list_to_control_list: a fresh list, filled in order with the
   * non-null controls the accessor returns for the stripables.
   */
  method StripableListToControlList<Item, Control>(sl: seq<Item>, getControl: Item -> Option<Control>)
    returns (cl: seq<Control>)
    ensures cl == FilterMap(sl, getControl)
  {
    cl := [];
    var k := 0;
    while k < |sl|
      invariant 0 <= k <= |sl|
      invariant cl == FilterMap(sl[..k], getControl)
    {
      var ac := getControl(sl[k]);
      FilterMapStep(sl, getControl, k);
      if ac.Some? {
        cl := cl + [ac.value];
      }
      k := k + 1;
    }
    assert sl[..k] == sl;
  }

  /**
   * route_list_to_control_list: as above over a possibly-null route list;
   * a null list gives an empty control list.
   */
  method RouteListToControlList<Item, Control>(rl: Option<seq<Item>>, getControl: Item -> Option<Control>)
    returns (cl: seq<Control>)
    ensures rl.None? ==> cl == []
    ensures rl.Some? ==> cl == FilterMap(rl.value, getControl)
  {
    cl := [];
    if rl.None? {
      return;
    }
    var routes := rl.value;
    var k := 0;
    while k < |routes|
      invariant 0 <= k <= |routes|
      invariant cl == FilterMap(routes[..k], getControl)
    {
      var ac := getControl(routes[k]);
      FilterMapStep(routes, getControl, k);
      if ac.Some? {
        cl := cl + [ac.value];
      }
      k := k + 1;
    }
    assert routes[..k] == routes;
  }

  /** On a non-null route list, the two helpers give the same control list. */
  method RouteAndStripableAgree<Item, Control>(items: seq<Item>, getControl: Item -> Option<Control>)
    returns (fromRoutes: seq<Control>, fromStripables: seq<Control>)
    ensures fromRoutes == fromStripables == FilterMap(items, getControl)
  {
    fromRoutes := RouteListToControlList(Some(items), getControl);
    fromStripables := StripableListToControlList(items, getControl);
  }
}
