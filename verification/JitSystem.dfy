/** Many processes over one JIT: runs, kernel changes to any address space,
    forks and exits in any order. */
module JitSystem {
  import opened AddressSpace
  import opened Flags
  import opened JitState
  import opened JitBlocks
  import opened JitCaches
  import opened JitDriver

  /** A live process: what it has mapped, and its watched and dirty code pages. */
  datatype Process = Process(view: View, watch: set<int>, dirty: seq<int>)

  class System {
    const jit: JitCpu
    /** The live processes, by the id of their address space. */
    var procs: map<int, Process>
    /** The buffers behind all MAP_SHARED mappings, one map for all processes. */
    var bufs: Buffers
    /** Ids count up and are not reused. */
    var nextId: nat

    /** The address space of a process, over the buffers as they are now. */
    function Space(id: int): Guest
      requires id in procs
      reads this`procs, this`bufs
    {
      Guest(id, Ram(procs[id].view, bufs), procs[id].watch, procs[id].dirty)
    }

    ghost predicate Valid()
      reads this, jit
    {
      && jit.Valid()
      && (forall id :: id in jit.spaces ==> id < nextId)
      && (forall id :: id in procs ==> id < nextId)
      && (forall id :: id in procs && id in jit.spaces ==> Fresh(jit.spaces[id], Space(id)))
    }

    constructor (w: World)
      requires w.capacity > 0
      ensures Valid() && fresh(jit) && jit.w == w && procs == map[] && bufs == map[] && jit.entered == []
    {
      jit := new JitCpu(w);
      procs := map[];
      bufs := map[];
      nextId := 0;
    }

    /** A new process, or the child of a fork: any mappings under a new id, with no
        page watched. Mappings of shared buffers see the same buffers. */
    method Spawn(view: View) returns (id: int)
      requires Valid()
      modifies this`procs, this`nextId
      ensures Valid() && id !in old(procs) && procs == old(procs)[id := Process(view, {}, [])]
    {
      id := nextId;
      procs := procs[id := Process(view, {}, [])];
      nextId := nextId + 1;
    }

    method Exit(id: int)
      requires Valid()
      modifies this`procs
      ensures Valid() && procs == old(procs) - {id}
    {
      procs := procs - {id};
    }

    /** The kernel changes an address space: any operation of `UserMemory`, or a
        change of the buffers behind it. */
    method Kernel(id: int, g: Guest)
      requires Valid() && id in procs && Tracked(Space(id), g)
      modifies this`procs, this`bufs
      ensures Valid() && bufs == g.ram.bufs && procs == old(procs)[id := Process(g.ram.view, g.watch, g.dirty)]
    {
      if id in jit.spaces {
        FreshStays(jit.w, jit.table, jit.nextSlot, jit.spaces[id], Space(id), g);
      }
      procs, bufs := procs[id := Process(g.ram.view, g.watch, g.dirty)], g.ram.bufs;
      forall k | k in procs && k in jit.spaces && k != id
        ensures Fresh(jit.spaces[k], Space(k))
      {
        assert Fresh(jit.spaces[k], old(Space(k)));
      }
    }

    /** A time slice of one process: it sees exactly the interpreter's steps, on its
        own mappings and on the shared buffers. The other processes keep their
        mappings and see the buffers as those steps left them. No region was
        entered whose words had changed. */
    method Run(id: int, cpu: Cpu, budget: U64) returns (done: nat, cpu': Cpu, exc: Option<Exception>)
      requires jit.w.Ok() && (jit.w.capacity >= 2 || jit.w.threshold >= 2)
      requires Valid() && id in procs
      modifies this`procs, this`bufs, jit
      ensures Valid() && procs.Keys == old(procs).Keys
      ensures forall k :: k in procs && k != id ==> procs[k] == old(procs)[k]
      ensures jit.w.Steps(done, cpu, old(Space(id)).ram, Outcome(cpu', Space(id).ram, exc))
      ensures done <= budget && (exc.None? ==> done == budget) && (budget > 0 ==> done > 0)
      ensures jit.NeverStale()
    {
      ghost var before := jit.spaces;
      var g;
      done, cpu', g, exc := jit.Run(cpu, Space(id), budget);
      assert procs[id := Process(g.ram.view, g.watch, g.dirty)].Keys == procs.Keys;
      procs, bufs := procs[id := Process(g.ram.view, g.watch, g.dirty)], g.ram.bufs;
      forall k | k in procs && k in jit.spaces && k != id
        ensures Fresh(jit.spaces[k], Space(k))
      {
        assert jit.spaces[k].blocks == before[k].blocks;
        assert Fresh(before[k], old(Space(k)));
      }
    }
  }
}
