/** How the first validator creates others (validator.c). */
module Managing {
  import opened Protocol

  function ChildId(occupancy: int): nat { if occupancy >= 80 then 3 else 2 }

  /** One call in the first validator; `works` says whether fork() succeeds. */
  datatype Visit = Visit(occupancy: int, now: int, works: bool)

  /** The first validator's counters, and the ids of the processes it has created. */
  datatype Manager = Manager(active: nat, lastCreation: int, children: seq<nat>)

  function Manage(m: Manager, v: Visit): Manager {
    if v.now - m.lastCreation >= 5 && WantsValidator(v.occupancy, m.active) && v.works
    then Manager(m.active + 1, v.now, m.children + [ChildId(v.occupancy)])
    else m
  }

  function ManageAll(visits: seq<Visit>): Manager {
    if visits == [] then Manager(1, 0, []) else Manage(ManageAll(visits[..|visits| - 1]), visits[|visits| - 1])
  }

  /** The static counters of a validator process. */
  class Process {
    var id: nat
    var active: nat
    var lastCreation: int
    ghost var children: seq<nat>

    ghost function Value(): Manager
      reads this
    {
      Manager(active, lastCreation, children)
    }

    constructor ()
      ensures id == 1 && Value() == ManageAll([])
    {
      id, active, lastCreation, children := 1, 1, 0, [];
    }

    /** manage_validators; `pid` is what fork() returns if it is called: 0 in the new process, negative
        on failure. In the first validator the counters follow Manage; the new process takes its id
        from the occupancy and starts counting again; all others do nothing. */
    method ManageValidators(occupancy: int, now: int, pid: int) returns (forked: bool)
      modifies this
      ensures forked <==>
        && old(id) == 1 && now - old(lastCreation) >= 5
        && ((80 <= occupancy && old(active) < 3) || (60 <= occupancy < 80 && old(active) < 2))
      ensures old(id) == 1 && (!forked || pid != 0) ==>
        id == 1 && Value() == Manage(old(Value()), Visit(occupancy, now, pid > 0))
      ensures forked && pid > 0 ==>
        && active == old(active) + 1 && lastCreation == now
        && children == old(children) + [if occupancy >= 80 then 3 else 2]
      ensures forked && pid == 0 ==>
        id == (if occupancy >= 80 then 3 else 2) && active == 1 && lastCreation == old(lastCreation)
      ensures old(id) != 1 ==> unchanged(this)
    {
      if id != 1 {
        return false;
      }
      if now - lastCreation < 5 {
        return false;
      }
      if occupancy >= 80 && active < 3 {
        if pid == 0 {
          id, active := 3, 1;
        } else if pid > 0 {
          active, lastCreation := active + 1, now;
          children := children + [3];
        }
        return true;
      } else if occupancy >= 60 && occupancy < 80 && active < 2 {
        if pid == 0 {
          id, active := 2, 1;
        } else if pid > 0 {
          active, lastCreation := active + 1, now;
          children := children + [2];
        }
        return true;
      }
      return false;
    }

    /** validator_main, right after that: whether the process ends itself. */
    method Terminates(occupancy: int) returns (ends: bool)
      ensures ends <==> id > 1 && occupancy <= 40
    {
      return id > 1 && occupancy <= 40;
    }
  }

  /** Whatever the pool's occupancy does, however long the system runs: no more than two
      validators are ever created, since the count is never lowered when one exits; a second
      one is always number 3, so that two may share that number. */
  lemma {:induction false} ChildrenAreFew(visits: seq<Visit>)
    ensures var m := ManageAll(visits);
            && m.active == 1 + |m.children| <= 3
            && (|m.children| == 1 ==> m.children[0] == 2 || m.children[0] == 3)
            && (|m.children| == 2 ==> (m.children[0] == 2 || m.children[0] == 3) && m.children[1] == 3)
  {
    if visits != [] {
      ChildrenAreFew(visits[..|visits| - 1]);
    }
  }

  /** The two numbers are the same exactly if the first creation, too, was at 80 per cent or more. */
  lemma NumbersRepeatIff(first: Visit, second: Visit)
    requires first.works && second.works && first.now >= 5 && second.now - first.now >= 5
    requires first.occupancy >= 60 && second.occupancy >= 80
    ensures ManageAll([first, second]).children == [3, 3] <==> first.occupancy >= 80
    ensures first.occupancy < 80 ==> ManageAll([first, second]).children == [2, 3]
  {
    var visits := [first, second];
    assert visits[..1] == [first];
    assert visits[..1][..0] == [];
    assert ManageAll(visits[..1]) == Manager(2, first.now, [ChildId(first.occupancy)]);
    assert ManageAll(visits).children[0] == ChildId(first.occupancy);
  }
}
