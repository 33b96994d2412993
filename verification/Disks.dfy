/** The part of a store directory that a crash can touch, and the two ways storage.go writes to it. */
module Disks {
  import opened Records
  import opened Chains

  /** `nodes`, `root` and `named` are what a reader sees now; `root` is "" when refs/root does not exist.
      `synced` names the node entries that a crash cannot take back. `settled` holds every value that
      refs/root may have after a crash: what the last directory sync fixed, and each later rename. */
  datatype Disk = Disk(
    nodes: Directory, synced: set<string>, root: string, settled: set<string>, named: map<string, string>)

  const EMPTY_DISK := Disk(map[], {}, "", {""}, map[])

  /** Where an append stops early: refs/root is unreadable, the payload, time or nonce cannot be produced,
      the node file cannot be examined, it is not linked, it is linked but its directory is not synced,
      refs/root is not replaced, or it is replaced but its directory is not synced. A crash in the middle of
      an append leaves the disk of one of these faults. */
  datatype Fault =
    | NoFault | RootUnreadable | NotEncoded | NotExamined
    | NodeNotLinked | NodeNotSynced | RootNotRenamed | RootNotSynced

  /** `atomicCreateFile` on a node: link never replaces an entry. */
  function Created(disk: Disk, node: Node, fault: Fault): (disk': Disk)
    ensures forall hash | hash in disk.nodes :: hash in disk'.nodes && disk'.nodes[hash] == disk.nodes[hash]
  {
    if node.hash in disk.nodes || fault.NodeNotLinked? then disk
    else
      var nodes := disk.nodes[node.hash := Stored(node)];
      if fault.NodeNotSynced? then disk.(nodes := nodes) else disk.(nodes := nodes, synced := nodes.Keys)
  }

  predicate IsCreated(disk: Disk, node: Node, fault: Fault) {
    node.hash !in disk.nodes && !fault.NodeNotLinked? && !fault.NodeNotSynced?
  }

  /** `atomicWriteFile` on refs/root. */
  function Renamed(disk: Disk, root: string, fault: Fault): Disk {
    if fault.RootNotRenamed? then disk
    else if fault.RootNotSynced? then disk.(root := root, settled := disk.settled + {root})
    else disk.(root := root, settled := {root})
  }

  /** The disk after a crash that kept the unsynced node entries in `kept`. */
  function Crashed(disk: Disk, kept: set<string>, root: string, named: map<string, string>): Disk {
    var nodes := map hash | hash in disk.nodes && hash in disk.synced + kept :: disk.nodes[hash];
    Disk(nodes, nodes.Keys, root, {root}, named)
  }

  /** The store directory as an object that calls update in place. */
  class Volume {
    var nodes: Directory
    var synced: set<string>
    var root: string
    var settled: set<string>
    var named: map<string, string>

    function State(): Disk
      reads this
    {
      Disk(nodes, synced, root, settled, named)
    }

    constructor ()
      ensures State() == EMPTY_DISK
    {
      nodes, synced, root, settled, named := map[], {}, "", {""}, map[];
    }

    method AtomicCreateNode(node: Node, fault: Fault) returns (ok: bool)
      modifies this
      ensures ok == IsCreated(old(State()), node, fault)
      ensures State() == Created(old(State()), node, fault)
    {
      if fault.NodeNotLinked? || node.hash in nodes {
        return false;
      }
      nodes := nodes[node.hash := Stored(node)];
      if fault.NodeNotSynced? {
        return false;
      }
      synced := nodes.Keys;
      return true;
    }

    method AtomicWriteRoot(hash: string, fault: Fault) returns (ok: bool)
      modifies this
      ensures ok == (!fault.RootNotRenamed? && !fault.RootNotSynced?)
      ensures State() == Renamed(old(State()), hash, fault)
    {
      if fault.RootNotRenamed? {
        return false;
      }
      root := hash;
      settled := settled + {hash};
      if fault.RootNotSynced? {
        return false;
      }
      settled := {hash};
      return true;
    }

    method AtomicWriteNamed(name: string, hash: string)
      modifies this`named
      ensures named == old(named)[name := hash]
    {
      named := named[name := hash];
    }
  }
}
