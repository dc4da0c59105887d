/**
 Action selection of `src/actions.rs`. The player picks the next action;
 `GravityWell` is unlimited, while `PortableHole` and `GravityInverter`
 each spend one unit of a `usize` counter of the `AvailableActions`
 resource. An accepted action is queued as the next action state.
 */
module Actions {
  import opened Common

  datatype Action = GravityWell | PortableHole | GravityInverter

  /** Rust's `usize` on a 64-bit target. */
  newtype usize = x: int | 0 <= x < 0x1_0000_0000_0000_0000

  /** The abstract value of the `AvailableActions` resource. */
  datatype Counters = Counters(portableHole: usize, gravityInverter: usize)

  /** What `set_action` does in one frame: the counters afterwards and the queued `NextState`, if any. */
  datatype Selection = Selection(counters: Counters, next: Option<Action>)

  /**
   The effect of `set_action` given the counters and the events pending
   this frame. Only the first event is looked at.
   */
  function SelectAction(c: Counters, events: seq<Action>): (r: Selection)
    // no event: nothing happens
    ensures events == [] ==> r == Selection(c, None)
    // the gravity well is always accepted and costs nothing
    ensures events != [] && events[0] == GravityWell ==> r == Selection(c, Some(GravityWell))
    // a portable hole is accepted iff one is left, and then costs exactly one
    ensures events != [] && events[0] == PortableHole ==> (r.next.Some? <==> c.portableHole > 0)
    ensures events != [] && events[0] == PortableHole && c.portableHole > 0 ==>
              r.counters == Counters(c.portableHole - 1, c.gravityInverter)
    // a gravity inverter is accepted iff one is left, and then costs exactly one
    ensures events != [] && events[0] == GravityInverter ==> (r.next.Some? <==> c.gravityInverter > 0)
    ensures events != [] && events[0] == GravityInverter && c.gravityInverter > 0 ==>
              r.counters == Counters(c.portableHole, c.gravityInverter - 1)
    // an accepted action becomes the next state; a rejected one changes nothing
    ensures r.next.Some? ==> events != [] && r.next.value == events[0]
    ensures r.next.None? ==> r.counters == c
    // counters never grow
    ensures r.counters.portableHole <= c.portableHole && r.counters.gravityInverter <= c.gravityInverter
  {
    if events == [] then Selection(c, None)
    else
      var event := events[0];
      match event
      case GravityWell => Selection(c, Some(event))
      case PortableHole =>
        if c.portableHole > 0 then Selection(c.(portableHole := c.portableHole - 1), Some(event))
        else Selection(c, None)
      case GravityInverter =>
        if c.gravityInverter > 0 then Selection(c.(gravityInverter := c.gravityInverter - 1), Some(event))
        else Selection(c, None)
  }

  /** Events after the first one in a frame have no effect on this call. */
  lemma OnlyFirstEventHandled(c: Counters, events: seq<Action>)
    requires events != []
    ensures SelectAction(c, events) == SelectAction(c, [events[0]])
  {
  }

  /** The `AvailableActions` resource, mutated in place through `ResMut`. */
  class AvailableActions {
    var portableHole: usize
    var gravityInverter: usize

    /** `AvailableActions::default()`. */
    constructor ()
      ensures portableHole == 0 && gravityInverter == 0
    {
      portableHole, gravityInverter := 0, 0;
    }

    function Counts(): Counters
      reads this
    {
      Counters(portableHole, gravityInverter)
    }

    /**
     `set_action`: handle the first pending event, decrementing the
     matching counter in place; `next` is the `NextState` command queued
     for an accepted action.
     */
    method SetAction(events: seq<Action>) returns (next: Option<Action>)
      modifies this
      ensures Selection(Counts(), next) == SelectAction(old(Counts()), events)
    {
      next := None;
      if events != [] {
        var event := events[0];
        var valid: bool;
        match event {
          case GravityWell =>
            valid := true;
          case PortableHole =>
            if portableHole > 0 {
              portableHole := portableHole - 1;
              valid := true;
            } else {
              valid := false;
            }
          case GravityInverter =>
            if gravityInverter > 0 {
              gravityInverter := gravityInverter - 1;
              valid := true;
            } else {
              valid := false;
            }
        }
        if valid {
          next := Some(event);
        }
      }
    }
  }
}
