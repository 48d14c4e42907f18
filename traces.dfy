/**
 * A trace: one recorded execution of a process, as the ordered list of the
 * activity labels that occurred in it.  The trace also carries the cursor of
 * its own iteration protocol, which `Iter` resets and `Next` advances.
 */
module Traces {
  import opened Wrappers

  /** An activity label. */
  type Label = string

  class Trace {
    /** The labels of the trace, in order; never changed after construction. */
    const nodes: seq<Label>
    /** Position of the next label `Next` hands out. */
    var index: nat

    constructor (nodes: seq<Label>)
      ensures this.nodes == nodes && index == 0
    {
      this.nodes := nodes;
      index := 0;
    }

    /** Number of labels; zero exactly for the empty trace, which is therefore falsy. */
    function Length(): (n: nat)
      ensures n == 0 <==> nodes == []
    {
      |nodes|
    }

    /** Starts (or restarts) an iteration over the labels and returns the trace itself. */
    method Iter() returns (it: Trace)
      modifies this`index
      ensures it == this && index == 0
    {
      index := 0;
      it := this;
    }

    /**
     * Hands out the label under the cursor and advances it, or answers `None`
     * (the end of the iteration) once every label has been handed out.
     */
    method Next() returns (r: Option<Label>)
      modifies this`index
      ensures old(index) < |nodes| ==> r == Some(nodes[old(index)]) && index == old(index) + 1
      ensures old(index) >= |nodes| ==> r == None && index == old(index)
    {
      if index < |nodes| {
        r := Some(nodes[index]);
        index := index + 1;
      } else {
        r := None;
      }
    }

    /**
     * A `for label in trace` loop: restart the cursor, then call `Next` until
     * it stops.  The labels come out in order, each once, and the loop ends.
     */
    method IterateAll() returns (seen: seq<Label>)
      modifies this`index
      ensures seen == nodes && |seen| == Length()
      ensures index == |nodes|
    {
      var it := Iter();
      seen := [];
      while true
        invariant it == this
        invariant index <= |nodes|
        invariant seen == nodes[..index]
        decreases |nodes| - index
      {
        var r := it.Next();
        if r.None? {
          break;
        }
        seen := seen + [r.value];
      }
    }

    /** Copies the labels into a fresh list, one append per label. */
    method Split() returns (spl: seq<Label>)
      ensures spl == nodes
    {
      spl := [];
      for i := 0 to |nodes|
        invariant spl == nodes[..i]
      {
        spl := spl + [nodes[i]];
      }
    }
  }
}
