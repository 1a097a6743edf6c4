/** Pointer dragging of a node: drag-start pins the node where it is, drag-move
    moves the pin to the pointer, drag-end releases it. The first gesture to start
    raises the simulation's alpha target so the layout reheats, and the last one to
    end lowers it back to 0 so the layout settles. */
module Drag {

  datatype Option<T> = None | Some(value: T)

  /** An event of the drag behaviour: `active` counts the drag gestures in
      progress other than this one, and (x, y) is the new position of the dragged
      node: its position when the gesture started, shifted by the pointer's
      movement since then. */
  datatype DragEvent = DragEvent(active: nat, x: int, y: int)

  /** Alpha target the first drag-start sets. */
  const ReheatAlphaTarget: real := 0.3

  /** Alpha target the last drag-end restores. */
  const RestingAlphaTarget: real := 0.0

  /** A simulated node: its id, its current position (written by the solver)
      and its pinned position, None when the node moves freely. */
  class Node {
    const id: int
    var x: int
    var y: int
    var fx: Option<int>
    var fy: Option<int>

    constructor (id: int, x: int, y: int)
      ensures this.id == id && this.x == x && this.y == y
      ensures Free()
    {
      this.id := id;
      this.x := x;
      this.y := y;
      fx := None;
      fy := None;
    }

    /** Both pin coordinates cleared. */
    predicate Free()
      reads this
    {
      fx.None? && fy.None?
    }
  }

  /** The parts of the force simulation the drag handlers touch. */
  class Simulation {
    const nodes: seq<Node>
    var alphaTarget: real
    var running: bool

    /** A fresh simulation over `nodes`: it starts running with the resting
        alpha target. */
    constructor (nodes: seq<Node>)
      ensures this.nodes == nodes
      ensures alphaTarget == RestingAlphaTarget && running
    {
      this.nodes := nodes;
      alphaTarget := RestingAlphaTarget;
      running := true;
    }

    /** The effect's cleanup: the simulation stops ticking. */
    method Stop()
      modifies this`running
      ensures !running
    {
      running := false;
    }

    /** Drag-start: if no other gesture is active, reheat and restart; then pin
        `d` at its current position. */
    method DragStarted(event: DragEvent, d: Node)
      modifies this`alphaTarget, this`running, d`fx, d`fy
      ensures alphaTarget == if event.active == 0 then ReheatAlphaTarget else old(alphaTarget)
      ensures running == (event.active == 0 || old(running))
      ensures d.fx == Some(d.x) && d.fy == Some(d.y)
      ensures forall n :: n in nodes && n != d ==> n.fx == old(n.fx) && n.fy == old(n.fy)
    {
      if event.active == 0 {
        alphaTarget := ReheatAlphaTarget;
        running := true;
      }
      d.fx := Some(d.x);
      d.fy := Some(d.y);
    }

    /** Drag-move: the pin follows the event's position. */
    method Dragged(event: DragEvent, d: Node)
      modifies d`fx, d`fy
      ensures d.fx == Some(event.x) && d.fy == Some(event.y)
      ensures forall n :: n in nodes && n != d ==> n.fx == old(n.fx) && n.fy == old(n.fy)
    {
      d.fx := Some(event.x);
      d.fy := Some(event.y);
    }

    /** Drag-end: if no other gesture is active, let the layout settle; then
        release `d`. */
    method DragEnded(event: DragEvent, d: Node)
      modifies this`alphaTarget, d`fx, d`fy
      ensures alphaTarget == if event.active == 0 then RestingAlphaTarget else old(alphaTarget)
      ensures d.Free()
      ensures forall n :: n in nodes && n != d ==> n.fx == old(n.fx) && n.fy == old(n.fy)
    {
      if event.active == 0 {
        alphaTarget := RestingAlphaTarget;
      }
      d.fx := None;
      d.fy := None;
    }

    /** One whole single-pointer gesture: press on `d`, move to (px, py),
        release. At the instant of release the pin is exactly (px, py); after it
        the node is free again and the alpha target is back at rest. */
    method DragTo(d: Node, px: int, py: int) returns (pinX: Option<int>, pinY: Option<int>)
      modifies this`alphaTarget, this`running, d`fx, d`fy
      ensures pinX == Some(px) && pinY == Some(py)
      ensures d.Free() && alphaTarget == RestingAlphaTarget && running
      ensures forall n :: n in nodes && n != d ==> n.fx == old(n.fx) && n.fy == old(n.fy)
    {
      DragStarted(DragEvent(0, d.x, d.y), d);
      Dragged(DragEvent(0, px, py), d);
      pinX, pinY := d.fx, d.fy;
      DragEnded(DragEvent(0, px, py), d);
    }
  }
}
