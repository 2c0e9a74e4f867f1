/** The register of challenges (lib/challenge/register.go): unique names, unique ids, ids that stay. */
module Registers {
  import opened Types
  import opened Wrappers
  import opened Expiry
  import Ledger

  type Entries = map<Id, Registration>

  /** Entries carry their own id, drawn from the counter, and no two share a name. */
  ghost predicate Consistent(entries: Entries, counter: nat)
  {
    && (forall id :: id in entries ==> entries[id].id == id && 0 < id <= counter)
    && (forall i, j :: i in entries && j in entries && entries[i].name == entries[j].name ==> i == j)
  }

  ghost predicate Named(entries: Entries, name: Text, id: Id)
  {
    id in entries && entries[id].name == name
  }

  /** The id a registration of this name gets: the old one, or the next of the counter. */
  ghost predicate Assigned(entries: Entries, counter: nat, name: Text, id: Id)
  {
    Named(entries, name, id) || (id == counter + 1 && forall k :: !Named(entries, name, k))
  }

  /** What a runtime is given to fill in: the default duration for none, and the id. */
  function Prepared(draft: Registration, id: Id): Registration
  {
    draft.(duration := if draft.duration == 0 then DEFAULT_DURATION else draft.duration, id := id)
  }

  /** A challenge has the duration of its policy, and seven days when that sets none. */
  lemma PreparedLasts(draft: Registration, id: Id)
    ensures var reg := Prepared(draft, id);
      && reg.duration != 0 && (draft.duration == 0 ==> reg.duration == 604_800_000_000_000)
      && (draft.duration != 0 ==> reg.duration == draft.duration)
      && reg.(id := draft.id, duration := draft.duration) == draft && reg.id == id
  {
  }

  lemma AssignedIsUnique(entries: Entries, counter: nat, name: Text, i: Id, j: Id)
    requires Consistent(entries, counter) && Assigned(entries, counter, name, i) && Assigned(entries, counter, name, j)
    ensures i == j
  {
  }

  /** The package-level counter of ids, shared by all registers. */
  class IdCounter {
    var value: nat
    constructor ()
      ensures value == 0
    {
      value := 0;
    }
  }

  class Register {
    var entries: Entries
    const counter: IdCounter

    ghost predicate Valid()
      reads this, counter
    {
      Consistent(entries, counter.value)
    }

    constructor (counter: IdCounter)
      ensures this.counter == counter && entries == map[] && Valid()
    {
      this.counter := counter;
      entries := map[];
    }

    method GetByName(name: Text) returns (found: Option<Id>)
      ensures found.None? <==> forall id :: !Named(entries, name, id)
      ensures found.Some? ==> Named(entries, name, found.value)
    {
      var ids := entries.Keys;
      while ids != {}
        invariant ids <= entries.Keys
        invariant forall id :: id in entries && id !in ids ==> entries[id].name != name
        decreases ids
      {
        HasMember(ids);
        var id :| id in ids;
        if entries[id].name == name {
          assert Named(entries, name, id);
          return Some(id);
        }
        ids := ids - {id};
      }
      return None;
    }

    /** Registers c under its name, replacing an older registration of that name. */
    method Add(c: Registration) returns (id: Id)
      requires Valid()
      modifies this, counter
      ensures Valid()
      ensures Assigned(old(entries), old(counter.value), c.name, id)
      ensures entries == old(entries)[id := c.(id := id)]
      ensures counter.value == old(counter.value) + if id in old(entries) then 0 else 1
    {
      var found := GetByName(c.name);
      match found {
        case Some(oldId) =>
          id := oldId;
        case None =>
          counter.value := counter.value + 1;
          id := counter.value;
      }
      RegistrationKeeps(entries, old(counter.value), c, id);
      entries := entries[id := c.(id := id)];
    }

    /**
      Creates a challenge from its policy. `fill` is the runtime, which may refuse; a refused
      new challenge has used up an id but left no entry.
     */
    method Create(knownRuntime: bool, conditionsCompile: bool, draft: Registration,
                  fill: Registration -> Option<Registration>) returns (id: Option<Id>)
      requires Valid()
      modifies this, counter
      ensures Valid()
      ensures forall k :: Assigned(old(entries), old(counter.value), draft.name, k) ==>
        (id.Some? <==> knownRuntime && conditionsCompile && fill(Prepared(draft, k)).Some?)
      ensures id.None? ==> entries == old(entries)
      ensures id.Some? ==>
        && Assigned(old(entries), old(counter.value), draft.name, id.value)
        && fill(Prepared(draft, id.value)).Some?
        && entries == old(entries)[id.value :=
             fill(Prepared(draft, id.value)).value.(id := id.value, name := draft.name)]
      ensures old(counter.value) <= counter.value <= old(counter.value) + 1
      ensures id.Some? ==> counter.value == old(counter.value) + if id.value in old(entries) then 0 else 1
    {
      if !knownRuntime {
        return None;
      }
      var reg := draft;
      if reg.duration == 0 {
        reg := reg.(duration := DEFAULT_DURATION);
      }
      if !conditionsCompile {
        return None;
      }
      var found := GetByName(reg.name);
      match found {
        case Some(oldId) =>
          reg := reg.(id := oldId);
        case None =>
          counter.value := counter.value + 1;
          reg := reg.(id := counter.value);
      }
      assert reg == Prepared(draft, reg.id);
      forall k | Assigned(old(entries), old(counter.value), draft.name, k) ensures k == reg.id {
        AssignedIsUnique(entries, old(counter.value), draft.name, k, reg.id);
      }
      var filled := fill(reg);
      if filled.None? {
        return None;
      }
      // runtimes fill in the rest and leave name and id alone
      RegistrationKeeps(entries, old(counter.value), filled.value.(id := reg.id, name := reg.name), reg.id);
      entries := entries[reg.id := filled.value.(id := reg.id, name := reg.name)];
      return Some(reg.id);
    }
  }

  /** Any registration keeps the register consistent, the ids of all names, and every other entry. */
  lemma RegistrationKeeps(entries: Entries, counter: nat, reg: Registration, id: Id)
    requires Consistent(entries, counter) && Assigned(entries, counter, reg.name, id)
    ensures var after := entries[id := reg.(id := id)];
      && Consistent(after, if id in entries then counter else counter + 1)
      && (forall name, k :: Named(entries, name, k) ==> Named(after, name, k))
      && (forall k :: k in entries && entries[k].name != reg.name ==> after[k] == entries[k])
      && (forall k :: Named(after, reg.name, k) ==> k == id)
  {
    forall k | k in entries && entries[k].name == reg.name ensures k == id {
      assert Named(entries, reg.name, k);
    }
  }

  /** However the entries are listed, each once, the list has unique ids and names. */
  lemma ListingIsWellRegistered(entries: Entries, counter: nat, ids: seq<Id>, regs: seq<Registration>)
    requires Consistent(entries, counter)
    requires forall i, j :: 0 <= i < j < |ids| ==> ids[i] != ids[j]
    requires |regs| == |ids| && forall i :: 0 <= i < |ids| ==> ids[i] in entries && regs[i] == entries[ids[i]]
    ensures Ledger.WellRegistered(regs)
  {
  }
}
