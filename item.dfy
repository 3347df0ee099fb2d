/** The items of lib/item.py and the lever activation counter. An item that is
    given a trigger type carries a trigger, which a lever hands out a limited
    number of times (-1: without limit); an item without one can be picked up. */
module Items {
  import opened Wrappers
  import opened Geometry

  /** The trigger of lib/trigger.py, of which only the type and the position
      the lever writes are part of this model. */
  class Trigger {
    const triggerType: string
    var x: int
    var y: int

    constructor (triggerType: string, x: int, y: int)
      ensures this.triggerType == triggerType && this.x == x && this.y == y
    {
      this.triggerType := triggerType;
      this.x := x;
      this.y := y;
    }
  }

  /** Whether the activation that brings the count to `count` hands out the trigger. */
  predicate Fires(count: int, maxActivations: int) {
    count <= maxActivations || maxActivations == -1
  }

  /** Whether each of the first `n` activations of a new lever hands out its trigger. */
  function Outcomes(maxActivations: int, n: nat): (r: seq<bool>)
    ensures |r| == n
  {
    if n == 0 then [] else Outcomes(maxActivations, n - 1) + [Fires(n, maxActivations)]
  }

  function Trues(n: nat): seq<bool> { seq(n, i => true) }
  function Falses(n: nat): seq<bool> { seq(n, i => false) }

  /** How many of the first `n` activations hand out the trigger: all of them
      without a limit, otherwise as many as the limit allows (none for a
      negative limit). */
  function Allowed(maxActivations: int, n: nat): (k: nat)
    ensures k <= n
  {
    if maxActivations == -1 then n
    else if maxActivations < 0 then 0
    else if maxActivations < n then maxActivations
    else n
  }

  /** A lever hands out its trigger on its first activations, as many as it
      is allowed, and never again after the first refusal. */
  lemma {:induction false} LeverFiresFirst(maxActivations: int, n: nat)
    ensures Outcomes(maxActivations, n) == Trues(Allowed(maxActivations, n)) + Falses(n - Allowed(maxActivations, n))
  {
    if n > 0 {
      LeverFiresFirst(maxActivations, n - 1);
      var k := Allowed(maxActivations, n - 1);
      if Fires(n, maxActivations) {
        assert Allowed(maxActivations, n) == k + 1;
        assert n - 1 - k == 0;
        assert Trues(k) + [true] == Trues(k + 1);
      } else {
        assert Allowed(maxActivations, n) == k;
        assert Falses(n - 1 - k) + [false] == Falses(n - k);
      }
    }
  }

  /** With the default limit of 1, the first activation hands out the trigger
      and every later one refuses. */
  lemma DefaultLeverFiresOnce(n: nat)
    requires n >= 1
    ensures Outcomes(1, n) == [true] + Falses(n - 1)
  {
    LeverFiresFirst(1, n);
    assert Trues(1) == [true];
  }

  class Item {
    var x: int
    var y: int
    var rect: Rect
    const itemclass: string
    var activatedTimes: int
    var maxActivations: int
    var trigger: Trigger?
    var pickable: bool
    var currentAnimation: string

    /** Item.__init__. The picture, and with it `rect`, comes from the
        animation files, so the box is a parameter; the "default" animation
        is the current one. An item with a trigger type gets a trigger at its
        position; one without is marked pickable. */
    constructor (x: int, y: int, rect: Rect, itemclass: string, maxActivations: int, triggerType: Option<string>)
      ensures this.x == x && this.y == y && this.rect == rect
      ensures this.itemclass == itemclass && this.maxActivations == maxActivations
      ensures activatedTimes == 0 && currentAnimation == "default"
      ensures triggerType.Some? <==> trigger != null
      ensures trigger != null ==>
        fresh(trigger) && trigger.triggerType == triggerType.value && trigger.x == x && trigger.y == y
      ensures pickable <==> triggerType.None?
    {
      this.x := x;
      this.y := y;
      this.rect := rect;
      this.itemclass := itemclass;
      activatedTimes := 0;
      this.maxActivations := maxActivations;
      currentAnimation := "default";
      pickable := false;
      if triggerType.Some? {
        trigger := new Trigger(triggerType.value, x, y);
      } else {
        trigger := null;
        pickable := true;
      }
    }

    /** activate: anything but a lever does nothing. A lever counts the
        activation, every time; while the count is within the limit (or
        there is none) it moves its trigger to its own position and hands it
        out, taking the "broken" look on the activation that reaches the
        limit. */
    method Activate() returns (t: Trigger?)
      requires itemclass == "lever" ==> trigger != null
      modifies this, trigger
      ensures x == old(x) && y == old(y) && rect == old(rect) && trigger == old(trigger)
      ensures maxActivations == old(maxActivations) && pickable == old(pickable)
      ensures itemclass != "lever" ==>
        t == null && activatedTimes == old(activatedTimes) && currentAnimation == old(currentAnimation) &&
        (trigger != null ==> unchanged(trigger))
      ensures itemclass == "lever" ==>
        activatedTimes == old(activatedTimes) + 1 &&
        (t != null <==> Fires(activatedTimes, maxActivations)) &&
        (t != null ==> t == trigger && t.x == x && t.y == y) &&
        (t == null ==> unchanged(trigger)) &&
        currentAnimation == (if activatedTimes == maxActivations then "broken" else old(currentAnimation))
    {
      if itemclass == "lever" {
        activatedTimes := activatedTimes + 1;
        if activatedTimes <= maxActivations || maxActivations == -1 {
          if activatedTimes == maxActivations {
            currentAnimation := "broken";
          }
          trigger.x := x;
          trigger.y := y;
          return trigger;
        }
      }
      return null;
    }
  }
}
