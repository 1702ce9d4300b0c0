/** The run control of one parallel slot: a one-way cancellation signal that also fences late writes. */
module RunControls {
  import opened Outcomes

  class RunControl {
    const parent: RunControl?
    ghost const lineage: set<RunControl>
    var event: bool
    var active: bool
    var cause: string

    /** `lineage` holds this control and all enclosing ones, and the chain of parents is finite. */
    ghost predicate Linked()
      decreases lineage
    {
      if parent == null then lineage == {this}
      else this !in parent.lineage && lineage == {this} + parent.lineage && parent.Linked()
    }

    constructor (parent: RunControl?)
      requires parent != null ==> parent.Linked()
      ensures Linked() && this.parent == parent
      ensures fresh(this) && !event && active && cause == ""
    {
      this.parent := parent;
      lineage := {this} + if parent == null then {} else parent.lineage;
      event, active, cause := false, true, "";
    }

    /** Set when this control or any enclosing one was cancelled. */
    predicate IsSet()
      requires Linked()
      reads lineage
      ensures IsSet() <==> exists c <- lineage :: c.event
      decreases lineage
    {
      event || (parent != null && parent.IsSet())
    }

    /** The first reason given wins; the signal never goes back. */
    method Cancel(reason: string)
      modifies this`event, this`cause
      ensures event
      ensures cause == if old(cause) == "" then reason else old(cause)
    {
      if cause == "" {
        cause := reason;
      }
      event := true;
    }

    method Close()
      modifies this`active
      ensures !active
    {
      active := false;
    }

    function Reason(): string
      requires Linked()
      reads lineage
    {
      if cause != "" then cause
      else if parent != null && parent.IsSet() then "parent pipeline cancellation requested"
      else "pipeline cancellation requested"
    }

    /** A write is refused exactly when this run has ended or any enclosing one was cancelled. */
    method AssertWritable() returns (refusal: Option<string>)
      requires Linked()
      ensures refusal.None? <==> active && forall c <- lineage :: !c.event
      ensures refusal == Some("completed") <==> !active && forall c <- lineage :: !c.event
      ensures refusal.Some? ==> refusal.value in {"cancelled", "completed"}
    {
      if IsSet() || !active {
        assert |"cancelled"| == 9 && "cancelled"[1] == 'a' && "completed"[1] == 'o';
        refusal := Some(if IsSet() then "cancelled" else "completed");
      } else {
        refusal := None;
      }
    }

    /**
     Other threads between two reads: any control of the chain may become cancelled, none is ever
     reset, and nothing happens when nobody can cancel.
     */
    method Interfere(cancellable: bool)
      requires Linked()
      modifies lineage
      ensures forall c <- lineage :: old(c.event) ==> c.event
      ensures forall c <- lineage :: c.active == old(c.active)
      ensures !cancellable ==> forall c <- lineage :: c.event == old(c.event)
    {
      if cancellable {
        var signalled: bool := *;
        if signalled {
          Cancel("operator requested cancellation");
        }
      }
    }
  }
}
