/** The object tree of the MTP database: a map from handles to entries, each naming its parent. */
module MtpObjectDb {
  import opened Basics

  const ROOT := 0xFFFF_FFFF       // also the invalid handle
  const ASSOCIATION := 0x3001
  const WORD := 0x1_0000_0000

  datatype Info = Info(storage: nat, format: nat, size: nat, parent: nat)

  type Objects = map<nat, Info>

  datatype Db = Db(objects: Objects, next: nat)

  /** What is found on the disk: a file, or a folder with what is in it. */
  datatype Node = File(format: nat, size: nat) | Folder(children: seq<Node>)

  /** Inserting under a handle that is taken does nothing. */
  function Insert(o: Objects, h: nat, info: Info): Objects {
    if h in o then o else o[h := info]
  }

  function Succ(h: nat): nat {
    (h + 1) % WORD
  }

  function NodeInfo(node: Node, parent: nat, storage: nat): Info {
    match node
    case File(format, size) => Info(storage, format, size, parent)
    case Folder(_) => Info(storage, ASSOCIATION, 0, parent)
  }

  /** addObjectInfo: an entry for the node, then for what is in it. */
  function AddNode(s: Db, node: Node, parent: nat, storage: nat): Db
    decreases node
  {
    var t := Db(Insert(s.objects, s.next, NodeInfo(node, parent, storage)), Succ(s.next));
    match node
    case File(_, _) => t
    case Folder(children) => AddNodes(t, children, s.next, storage)
  }

  function AddNodes(s: Db, nodes: seq<Node>, parent: nat, storage: nat): Db
    decreases nodes
  {
    if nodes == [] then s else AddNodes(AddNode(s, nodes[0], parent, storage), nodes[1..], parent, storage)
  }

  /** A storage gets an entry below the root marker; what is in it has parent 0. */
  function AddStorage(s: Db, content: seq<Node>, storage: nat): Db {
    var t := Db(Insert(s.objects, s.next, Info(storage, ASSOCIATION, 0, ROOT)), Succ(s.next));
    AddNodes(t, content, 0, storage)
  }

  /** beginSendObject; `acceptable` says that the path is on a storage and not there yet. */
  function BeginSend(s: Db, info: Info, acceptable: bool): (Db, nat) {
    if !acceptable then (s, ROOT)
    else (Db(Insert(s.objects, s.next, info), Succ(s.next)), s.next)
  }

  function EndSend(s: Db, h: nat, format: nat, succeeded: bool, size: nat): Db {
    if h !in s.objects then s
    else if !succeeded then s.(objects := s.objects - {h})
    else if format == ASSOCIATION then s
    else s.(objects := s.objects[h := s.objects[h].(size := size)])
  }

  /** The path from k up through its parents comes to h. */
  predicate Under(o: Objects, k: nat, h: nat)
    decreases k
  {
    k == h || (k in o && o[k].parent < k && Under(o, o[k].parent, h))
  }

  /** What is left when h goes with everything below it. */
  function Pruned(o: Objects, h: nat): (r: Objects) {
    map k | k in o && !Under(o, k, h) :: o[k]
  }

  ghost predicate ParentOk(o: Objects, k: nat)
    requires k in o
  {
    var p := o[k].parent;
    p == 0 || p == ROOT || (p < k && p in o && o[p].format == ASSOCIATION)
  }

  /** Every parent is 0, the root marker, or the smaller handle of a folder that is there. */
  ghost predicate Tree(o: Objects) {
    forall k :: k in o ==> 1 <= k < ROOT && ParentOk(o, k)
  }

  ghost predicate Inv(s: Db) {
    Tree(s.objects) && 1 <= s.next <= ROOT && forall k :: k in s.objects ==> k < s.next
  }

  /** How many handles a node takes. */
  function Count(node: Node): (n: nat)
    ensures n >= 1
    decreases node
  {
    match node
    case File(_, _) => 1
    case Folder(children) => 1 + CountAll(children)
  }

  function CountAll(nodes: seq<Node>): nat
    decreases nodes
  {
    if nodes == [] then 0 else Count(nodes[0]) + CountAll(nodes[1..])
  }

  /** A new entry under an unused handle. */
  lemma InsertKeepsInv(s: Db, info: Info)
    requires Inv(s) && s.next < ROOT
    requires info.parent == 0 || info.parent == ROOT
             || (info.parent in s.objects && s.objects[info.parent].format == ASSOCIATION)
    ensures s.next !in s.objects && Inv(Db(Insert(s.objects, s.next, info), Succ(s.next))) && Succ(s.next) == s.next + 1
  {
    var o := Insert(s.objects, s.next, info);
    forall k | k in o ensures 1 <= k < ROOT && ParentOk(o, k) {
      if k in s.objects { assert ParentOk(s.objects, k); }
    }
  }

  /** Scanning adds entries and changes none; it uses one handle a node. */
  lemma {:induction false} AddNodeKeepsInv(s: Db, node: Node, parent: nat, storage: nat)
    requires Inv(s) && s.next + Count(node) <= ROOT
    requires parent == 0 || parent == ROOT || (parent in s.objects && s.objects[parent].format == ASSOCIATION)
    ensures var r := AddNode(s, node, parent, storage); Inv(r) && r.next == s.next + Count(node) && Extends(s, r)
    decreases node
  {
    var t := Db(Insert(s.objects, s.next, NodeInfo(node, parent, storage)), Succ(s.next));
    InsertKeepsInv(s, NodeInfo(node, parent, storage));
    match node
    case File(_, _) =>
    case Folder(children) => AddNodesKeepInv(t, children, s.next, storage);
  }

  lemma {:induction false} AddNodesKeepInv(s: Db, nodes: seq<Node>, parent: nat, storage: nat)
    requires Inv(s) && s.next + CountAll(nodes) <= ROOT
    requires parent == 0 || parent == ROOT || (parent in s.objects && s.objects[parent].format == ASSOCIATION)
    ensures var r := AddNodes(s, nodes, parent, storage); Inv(r) && r.next == s.next + CountAll(nodes) && Extends(s, r)
    decreases nodes
  {
    if nodes != [] {
      AddNodeKeepsInv(s, nodes[0], parent, storage);
      AddNodesKeepInv(AddNode(s, nodes[0], parent, storage), nodes[1..], parent, storage);
    }
  }

  ghost predicate Extends(s: Db, r: Db) {
    forall k :: k in s.objects ==> k in r.objects && r.objects[k] == s.objects[k]
  }

  lemma AddStorageKeepsInv(s: Db, content: seq<Node>, storage: nat)
    requires Inv(s) && s.next + 1 + CountAll(content) <= ROOT
    ensures var r := AddStorage(s, content, storage);
            Inv(r) && r.next == s.next + 1 + CountAll(content) && Extends(s, r)
  {
    InsertKeepsInv(s, Info(storage, ASSOCIATION, 0, ROOT));
    var t := Db(Insert(s.objects, s.next, Info(storage, ASSOCIATION, 0, ROOT)), Succ(s.next));
    AddNodesKeepInv(t, content, 0, storage);
  }

  lemma {:induction false} UnderGrows(o: Objects, k: nat, h: nat)
    requires Under(o, k, h)
    ensures h <= k
    decreases k
  {
    if k != h { UnderGrows(o, o[k].parent, h); }
  }

  lemma PrunedIsTree(o: Objects, h: nat)
    requires Tree(o) && 1 <= h < ROOT
    ensures Tree(Pruned(o, h))
  {
    var r := Pruned(o, h);
    forall k | k in r ensures 1 <= k < ROOT && ParentOk(r, k) {
      assert ParentOk(o, k);
      var p := o[k].parent;
      if p != 0 && p != ROOT {
        assert !Under(o, p, h);
      }
    }
  }

  /** An entry that is no folder is below nothing but itself. */
  lemma {:induction false} FileHasNothingBelow(o: Objects, k: nat, h: nat)
    requires Tree(o) && h in o && o[h].format != ASSOCIATION && k in o && Under(o, k, h)
    ensures k == h
    decreases k
  {
    if k != h {
      assert ParentOk(o, k);
      var p := o[k].parent;
      UnderGrows(o, p, h);
      FileHasNothingBelow(o, p, h);
    }
  }

  lemma PrunedFile(o: Objects, h: nat)
    requires Tree(o) && h in o && o[h].format != ASSOCIATION
    ensures Pruned(o, h) == o - {h}
  {
    forall k | k in o && Under(o, k, h) ensures k == h { FileHasNothingBelow(o, k, h); }
  }

  // ---- The entries are the tree on the disk ----------------------------------------------------------

  /** The entry of h is the node's, below the given parent; a folder's content has the handles after its own,
      below it. */
  ghost predicate Mirrors(o: Objects, node: Node, h: nat, parent: nat, storage: nat)
    decreases node
  {
    && h in o && o[h].parent == parent && o[h].storage == storage
    && match node
       case File(format, size) => o[h].format == format && o[h].size == size
       case Folder(children) => o[h].format == ASSOCIATION && o[h].size == 0
                                && MirrorsAll(o, children, h + 1, h, storage)
  }

  /** One node after the other, from h on, each with as many handles as it has nodes. */
  ghost predicate MirrorsAll(o: Objects, nodes: seq<Node>, h: nat, parent: nat, storage: nat)
    decreases nodes
  {
    nodes == [] ||
    (Mirrors(o, nodes[0], h, parent, storage) && MirrorsAll(o, nodes[1..], h + Count(nodes[0]), parent, storage))
  }

  lemma {:induction false} MirrorsMore(o: Objects, r: Objects, node: Node, h: nat, parent: nat, storage: nat)
    requires Mirrors(o, node, h, parent, storage) && forall k :: k in o ==> k in r && r[k] == o[k]
    ensures Mirrors(r, node, h, parent, storage)
    decreases node
  {
    if node.Folder? { MirrorsAllMore(o, r, node.children, h + 1, h, storage); }
  }

  lemma {:induction false} MirrorsAllMore(o: Objects, r: Objects, nodes: seq<Node>, h: nat, parent: nat, storage: nat)
    requires MirrorsAll(o, nodes, h, parent, storage) && forall k :: k in o ==> k in r && r[k] == o[k]
    ensures MirrorsAll(r, nodes, h, parent, storage)
    decreases nodes
  {
    if nodes != [] {
      MirrorsMore(o, r, nodes[0], h, parent, storage);
      MirrorsAllMore(o, r, nodes[1..], h + Count(nodes[0]), parent, storage);
    }
  }

  /** Scanning a node makes exactly its entries: they mirror it, with as many new handles as it has nodes, and
      nothing else changes. */
  lemma {:induction false} ScanMirrors(s: Db, node: Node, parent: nat, storage: nat)
    requires Inv(s) && s.next + Count(node) <= ROOT
    requires parent == 0 || parent == ROOT || (parent in s.objects && s.objects[parent].format == ASSOCIATION)
    ensures var r := AddNode(s, node, parent, storage);
            && Mirrors(r.objects, node, s.next, parent, storage)
            && OnlyNew(s, r, Count(node))
    decreases node
  {
    AddNodeKeepsInv(s, node, parent, storage);
    InsertKeepsInv(s, NodeInfo(node, parent, storage));
    var t := Db(Insert(s.objects, s.next, NodeInfo(node, parent, storage)), Succ(s.next));
    if node.Folder? {
      ScanAllMirrors(t, node.children, s.next, storage);
      AddNodesKeepInv(t, node.children, s.next, storage);
    }
  }

  lemma {:induction false} ScanAllMirrors(s: Db, nodes: seq<Node>, parent: nat, storage: nat)
    requires Inv(s) && s.next + CountAll(nodes) <= ROOT
    requires parent == 0 || parent == ROOT || (parent in s.objects && s.objects[parent].format == ASSOCIATION)
    ensures var r := AddNodes(s, nodes, parent, storage);
            && MirrorsAll(r.objects, nodes, s.next, parent, storage)
            && OnlyNew(s, r, CountAll(nodes))
    decreases nodes
  {
    if nodes != [] {
      var t := AddNode(s, nodes[0], parent, storage);
      ScanMirrors(s, nodes[0], parent, storage);
      AddNodeKeepsInv(s, nodes[0], parent, storage);
      ScanAllMirrors(t, nodes[1..], parent, storage);
      AddNodesKeepInv(t, nodes[1..], parent, storage);
      MirrorsMore(t.objects, AddNodes(s, nodes, parent, storage).objects, nodes[0], s.next, parent, storage);
    }
  }

  /** The old entries are as they were, and the new ones are exactly the next n handles. */
  ghost predicate OnlyNew(s: Db, r: Db, n: nat) {
    && r.next == s.next + n && Extends(s, r)
    && forall k :: k in r.objects <==> k in s.objects || s.next <= k < s.next + n
  }

  /** A storage is an entry below the root marker, and what is in it is mirrored with parent 0. */
  lemma StorageMirrors(s: Db, content: seq<Node>, storage: nat)
    requires Inv(s) && s.next + 1 + CountAll(content) <= ROOT
    ensures var r := AddStorage(s, content, storage);
            && s.next in r.objects && r.objects[s.next] == Info(storage, ASSOCIATION, 0, ROOT)
            && MirrorsAll(r.objects, content, s.next + 1, 0, storage)
            && OnlyNew(s, r, 1 + CountAll(content))
  {
    InsertKeepsInv(s, Info(storage, ASSOCIATION, 0, ROOT));
    var t := Db(Insert(s.objects, s.next, Info(storage, ASSOCIATION, 0, ROOT)), Succ(s.next));
    ScanAllMirrors(t, content, 0, storage);
  }

  datatype Event =
    | Storage(content: seq<Node>, storage: nat)
    | Appeared(node: Node, folder: nat, storage: nat)
    | SendInfo(info: Info, acceptable: bool)
    | SendEnd(handle: nat, format: nat, succeeded: bool, size: nat)
    | Delete(handle: nat)

  /** The parent the database is given: the server refuses one that is not a folder, and stands for the root
      by 0. */
  function GivenParent(o: Objects, parent: nat): Option<nat> {
    if parent == ROOT then Some(0)
    else if parent in o && o[parent].format == ASSOCIATION then Some(parent)
    else None
  }

  /** New files appear in watched folders. */
  function Next(s: Db, e: Event): Db {
    match e
    case Storage(content, storage) => AddStorage(s, content, storage)
    case Appeared(node, folder, storage) =>
      if folder in s.objects && s.objects[folder].format == ASSOCIATION then AddNode(s, node, folder, storage) else s
    case SendInfo(info, acceptable) =>
      var parent := GivenParent(s.objects, info.parent);
      if parent.None? then s else BeginSend(s, info.(parent := parent.value), acceptable).0
    case SendEnd(h, format, succeeded, size) => EndSend(s, h, format, succeeded, size)
    case Delete(h) => if h == 0 || h == ROOT || h !in s.objects then s else s.(objects := Pruned(s.objects, h))
  }

  function Handles(e: Event): nat {
    match e
    case Storage(content, _) => 1 + CountAll(content)
    case Appeared(node, _, _) => Count(node)
    case SendInfo(_, _) => 1
    case _ => 0
  }

  function AllHandles(es: seq<Event>): nat {
    if es == [] then 0 else Handles(es[0]) + AllHandles(es[1..])
  }

  function Run(s: Db, es: seq<Event>): Db
    decreases |es|
  {
    if es == [] then s else Run(Next(s, es[0]), es[1..])
  }

  /** The sending of something with entries below it ends as failed. */
  ghost predicate Orphans(s: Db, e: Event) {
    && e.SendEnd? && !e.succeeded && e.handle in s.objects
    && exists k :: k in s.objects && s.objects[k].parent == e.handle
  }

  lemma FailedEndIff(s: Db, h: nat)
    requires Inv(s) && h in s.objects
    ensures Tree(s.objects - {h}) <==> forall k :: k in s.objects ==> s.objects[k].parent != h
  {
    var r := s.objects - {h};
    assert 1 <= h < ROOT;
    forall k | k in r ensures s.objects[k].parent != h ==> ParentOk(r, k) { assert ParentOk(s.objects, k); }
    forall k | k in s.objects && s.objects[k].parent == h ensures k in r && !ParentOk(r, k) {
      assert ParentOk(s.objects, k);
    }
  }

  lemma EndSendKeepsInvIff(s: Db, h: nat, format: nat, succeeded: bool, size: nat)
    requires Inv(s)
    ensures Inv(EndSend(s, h, format, succeeded, size)) <==> !Orphans(s, SendEnd(h, format, succeeded, size))
  {
    if h in s.objects {
      if !succeeded {
        FailedEndIff(s, h);
      } else {
        var o := EndSend(s, h, format, succeeded, size).objects;
        forall k | k in o ensures 1 <= k < ROOT && ParentOk(o, k) { assert ParentOk(s.objects, k); }
      }
    }
  }

  lemma NextKeepsInvIff(s: Db, e: Event)
    requires Inv(s) && s.next + Handles(e) <= ROOT
    ensures Inv(Next(s, e)) <==> !Orphans(s, e)
    ensures s.next <= Next(s, e).next <= s.next + Handles(e)
  {
    match e
    case Storage(content, storage) => AddStorageKeepsInv(s, content, storage);
    case Appeared(node, folder, storage) =>
      if folder in s.objects && s.objects[folder].format == ASSOCIATION { AddNodeKeepsInv(s, node, folder, storage); }
    case SendInfo(info, acceptable) =>
      var parent := GivenParent(s.objects, info.parent);
      if acceptable && parent.Some? { InsertKeepsInv(s, info.(parent := parent.value)); }
    case SendEnd(h, format, succeeded, size) => EndSendKeepsInvIff(s, h, format, succeeded, size);
    case Delete(h) => if h != 0 && h != ROOT && h in s.objects { PrunedIsTree(s.objects, h); }
  }

  ghost predicate NoneOrphans(s: Db, es: seq<Event>)
    decreases |es|
  {
    es != [] ==> !Orphans(s, es[0]) && NoneOrphans(Next(s, es[0]), es[1..])
  }

  /** In every run that does not use up the handles, every parent is at every moment 0, the root marker, or
      the smaller handle of a folder that is there, exactly when no failed end of sending orphans an entry.
      Module MtpSession shows that the server never makes one that does. */
  lemma {:induction false} RunKeepsTree(s: Db, es: seq<Event>)
    requires Inv(s) && s.next + AllHandles(es) <= ROOT
    ensures (forall n :: 0 <= n <= |es| ==> Inv(Run(s, es[..n]))) <==> NoneOrphans(s, es)
    decreases |es|
  {
    assert Run(s, es[..0]) == s;
    if es != [] {
      var next, rest := Next(s, es[0]), es[1..];
      NextKeepsInvIff(s, es[0]);
      forall n | 0 < n <= |es| ensures Run(s, es[..n]) == Run(next, rest[..n - 1]) {
        assert es[..n][1..] == rest[..n - 1];
      }
      assert Run(next, rest[..0]) == next;
      if Inv(next) {
        RunKeepsTree(next, rest);
        assert forall n :: 0 <= n <= |rest| ==> Run(next, rest[..n]) == Run(s, es[..n + 1]);
      } else {
        assert Run(s, es[..1]) == next;
      }
    }
  }

  /** A handle that is gone stays gone: later entries all have handles that were never used. */
  lemma {:induction false} HandlesNotReused(s: Db, es: seq<Event>, h: nat)
    requires s.next + AllHandles(es) <= ROOT && h < s.next && h !in s.objects
    ensures h !in Run(s, es).objects
    decreases |es|
  {
    if es != [] {
      OldHandleStaysOut(s, es[0], h);
      HandlesNotReused(Next(s, es[0]), es[1..], h);
    }
  }

  lemma OldHandleStaysOut(s: Db, e: Event, h: nat)
    requires s.next + Handles(e) <= ROOT && h < s.next && h !in s.objects
    ensures h !in Next(s, e).objects && s.next <= Next(s, e).next <= s.next + Handles(e)
  {
    match e
    case Storage(content, storage) =>
      var t := Db(Insert(s.objects, s.next, Info(storage, ASSOCIATION, 0, ROOT)), Succ(s.next));
      NodesUseNewHandles(t, content, 0, storage, h);
    case Appeared(node, folder, storage) =>
      if folder in s.objects && s.objects[folder].format == ASSOCIATION {
        NodeUsesNewHandles(s, node, folder, storage, h);
      }
    case _ =>
  }

  lemma {:induction false} NodeUsesNewHandles(s: Db, node: Node, parent: nat, storage: nat, h: nat)
    requires s.next + Count(node) <= ROOT && h < s.next && h !in s.objects
    ensures var r := AddNode(s, node, parent, storage); h !in r.objects && r.next == s.next + Count(node)
    decreases node
  {
    var t := Db(Insert(s.objects, s.next, NodeInfo(node, parent, storage)), Succ(s.next));
    match node
    case File(_, _) =>
    case Folder(children) => NodesUseNewHandles(t, children, s.next, storage, h);
  }

  lemma {:induction false} NodesUseNewHandles(s: Db, nodes: seq<Node>, parent: nat, storage: nat, h: nat)
    requires s.next + CountAll(nodes) <= ROOT && h < s.next && h !in s.objects
    ensures var r := AddNodes(s, nodes, parent, storage); h !in r.objects && r.next == s.next + CountAll(nodes)
    decreases nodes
  {
    if nodes != [] {
      NodeUsesNewHandles(s, nodes[0], parent, storage, h);
      NodesUseNewHandles(AddNode(s, nodes[0], parent, storage), nodes[1..], parent, storage, h);
    }
  }

  /** The answer to the announcement of an object can be trusted, that is it reads as a failure just when no
      entry was made, unless an acceptable object gets the last handle, which reads as a failure. */
  lemma SendAnswerTrueIff(s: Db, info: Info, acceptable: bool)
    requires Inv(s)
    ensures var (t, h) := BeginSend(s, info, acceptable);
            ((h == ROOT <==> t == s) <==> !(acceptable && s.next == ROOT))
            && (acceptable ==> s.next !in s.objects && t.objects == s.objects[s.next := info])
  {
    if acceptable { assert s.next !in s.objects; }
  }

  /** An announced object gets an entry exactly when it is acceptable and its parent is the root marker or a folder
      that is there; its entry is what was announced, with the root standing as 0, at the next handle, and no other
      entry changes. */
  lemma AnnouncedIsEntered(s: Db, info: Info, acceptable: bool)
    requires Inv(s)
    ensures var t := Next(s, SendInfo(info, acceptable));
            var folder := info.parent in s.objects && s.objects[info.parent].format == 0x3001;
            if acceptable && (info.parent == 0xFFFF_FFFF || folder) then
              && s.next !in s.objects
              && t.objects == s.objects[s.next := if info.parent == 0xFFFF_FFFF then info.(parent := 0) else info]
            else t == s
  {
    SendAnswerTrueIff(s, info.(parent := 0), acceptable);
    SendAnswerTrueIff(s, info, acceptable);
  }

  /** A deletion takes the entry and everything below it, along the parents, and nothing else; a handle that is not
      there takes nothing. */
  lemma DeletionTakesSubtree(s: Db, h: nat)
    requires Inv(s)
    ensures var t := Next(s, Delete(h));
            && t.next == s.next
            && (forall k :: k in t.objects <==> k in s.objects && !(h in s.objects && Under(s.objects, k, h)))
            && (forall k :: k in t.objects ==> t.objects[k] == s.objects[k])
  {
  }

  lemma LastHandleLooksInvalid()
    ensures var info := Info(1, 0x3000, 5, 0);
            BeginSend(Db(map[], ROOT), info, true) == (Db(map[ROOT := info], 0), ROOT)
  {
    SendAnswerTrueIff(Db(map[], ROOT), Info(1, 0x3000, 5, 0), true);
  }

  /** The child of h through which k lies below h. */
  function Branch(o: Objects, k: nat, h: nat): (b: nat)
    requires k != h && Under(o, k, h)
    ensures b in o && o[b].parent == h && Under(o, k, b)
    decreases k
  {
    if o[k].parent == h then k else Branch(o, o[k].parent, h)
  }

  lemma {:induction false} BranchIs(o: Objects, k: nat, c: nat, h: nat)
    requires c in o && o[c].parent == h && h < c && Under(o, k, c)
    ensures k != h && Under(o, k, h) && Branch(o, k, h) == c
    decreases k
  {
    UnderGrows(o, k, c);
    if k != c {
      BranchIs(o, o[k].parent, c, h);
    }
  }

  /** `d` is what is left of `o` while the children of h outside `rest` have been deleted. */
  ghost predicate Partly(o: Objects, d: Objects, h: nat, rest: set<nat>) {
    && (forall k :: k in d ==> k in o && d[k] == o[k])
    && (forall k :: k in o ==> (k in d <==> !Gone(o, k, h, rest)))
  }

  ghost predicate Gone(o: Objects, k: nat, h: nat, rest: set<nat>) {
    k != h && Under(o, k, h) && Branch(o, k, h) !in rest
  }

  lemma {:induction false} UnderKept(o: Objects, d: Objects, h: nat, rest: set<nat>, k: nat, c: nat)
    requires Partly(o, d, h, rest) && c in rest && c in o && o[c].parent == h && h < c
    requires k in d
    ensures Under(d, k, c) <==> Under(o, k, c)
    decreases k
  {
    if k != c && o[k].parent < k {
      var p := o[k].parent;
      if Under(o, p, c) {
        BranchIs(o, p, c, h);
        if p in o { UnderKept(o, d, h, rest, p, c); }
      } else if p in d {
        UnderKept(o, d, h, rest, p, c);
      }
    }
  }

  /** Deleting one more child. */
  lemma ChildDeleted(o: Objects, d: Objects, h: nat, rest: set<nat>, c: nat)
    requires Tree(o) && Partly(o, d, h, rest) && c in rest && c in d && d[c].parent == h && h != 0 && h < ROOT
    ensures Partly(o, Pruned(d, c), h, rest - {c})
  {
    assert ParentOk(o, c);
    forall k | k in o ensures k in Pruned(d, c) <==> !Gone(o, k, h, rest - {c}) {
      if k in d {
        UnderKept(o, d, h, rest, k, c);
        if Under(o, k, c) { BranchIs(o, k, c, h); }
      }
    }
  }

  /** A key that is no child of h, or is gone already, has nothing to be deleted. */
  lemma OtherSkipped(o: Objects, d: Objects, h: nat, rest: set<nat>, c: nat)
    requires Tree(o) && Partly(o, d, h, rest) && c in rest && !(c in d && d[c].parent == h) && 1 <= h < ROOT
    ensures Partly(o, d, h, rest - {c})
  {
    ChildIsBranch(o, c, h);
  }

  lemma ChildIsBranch(o: Objects, c: nat, h: nat)
    requires Tree(o) && 1 <= h < ROOT
    ensures c in o && o[c].parent == h ==> c != h && Under(o, c, h) && Branch(o, c, h) == c
  {
    if c in o && o[c].parent == h {
      assert ParentOk(o, c);
      BranchIs(o, c, c, h);
    }
  }

  lemma GoneBelow(o: Objects, k: nat, h: nat, rest: set<nat>)
    ensures k in o && o[k].parent < k && Gone(o, o[k].parent, h, rest) ==> Gone(o, k, h, rest)
  {
    if k in o && o[k].parent < k && Gone(o, o[k].parent, h, rest) {
      UnderGrows(o, o[k].parent, h);
    }
  }

  lemma AllDeleted(o: Objects, d: Objects, h: nat)
    requires Partly(o, d, h, {}) && h in o
    ensures d - {h} == Pruned(o, h) && h in d
  {
    var r := d - {h};
    forall k ensures k in r <==> k in Pruned(o, h) {
      if k in o && k != h && Under(o, k, h) { assert Gone(o, k, h, {}); }
    }
  }

  lemma PartlyIsTree(o: Objects, d: Objects, h: nat, rest: set<nat>)
    requires Tree(o) && Partly(o, d, h, rest) && 1 <= h < ROOT
    ensures Tree(d)
  {
    forall k | k in d ensures 1 <= k < ROOT && ParentOk(d, k) {
      assert ParentOk(o, k);
      GoneBelow(o, k, h, rest);
    }
  }

  /** The entry is in the storage, below the parent, and of the format, or any with 0. */
  predicate Asked(i: Info, storage: nat, format: nat, parent: nat) {
    i.storage == storage && i.parent == parent && (format == 0 || i.format == format)
  }

  class MyMtpDatabase {
    var objectDb: Objects
    var handleId: nat

    ghost function View(): Db
      reads this
    {
      Db(objectDb, handleId)
    }

    constructor ()
      ensures View() == Db(map[], 1) && Inv(View())
    {
      objectDb, handleId := map[], 1;
    }

    method AddObjectInfo(node: Node, parent: nat, storage: nat)
      modifies this
      ensures View() == AddNode(old(View()), node, parent, storage)
      decreases node
    {
      var handle := handleId;
      handleId := Succ(handleId);
      match node {
        case Folder(children) =>
          if handle !in objectDb {
            objectDb := objectDb[handle := Info(storage, ASSOCIATION, 0, parent)];
          }
          EnumDirectory(children, handle, storage);
        case File(format, size) =>
          if handle !in objectDb {
            objectDb := objectDb[handle := Info(storage, format, size, parent)];
          }
      }
    }

    method EnumDirectory(entries: seq<Node>, parent: nat, storage: nat)
      modifies this
      ensures View() == AddNodes(old(View()), entries, parent, storage)
      decreases entries
    {
      ghost var goal := AddNodes(View(), entries, parent, storage);
      var rest := entries;
      while rest != []
        invariant AddNodes(View(), rest, parent, storage) == goal
        invariant forall n :: n in rest ==> n in entries
        decreases |rest|
      {
        assert rest[0] in entries;
        AddObjectInfo(rest[0], parent, storage);
        rest := rest[1..];
      }
    }

    /** `present` says that the storage's path is a folder. */
    method AddStoragePath(present: bool, content: seq<Node>, storage: nat)
      modifies this
      ensures View() == if present then AddStorage(old(View()), content, storage) else old(View())
    {
      if present {
        var handle := handleId;
        handleId := Succ(handleId);
        if handle !in objectDb {
          objectDb := objectDb[handle := Info(storage, ASSOCIATION, 0, ROOT)];
        }
        EnumDirectory(content, 0, storage);
      }
    }

    method BeginSendObject(info: Info, acceptable: bool) returns (handle: nat)
      modifies this
      ensures (View(), handle) == BeginSend(old(View()), info, acceptable)
    {
      if !acceptable {
        return ROOT;
      }
      handle := handleId;
      if handle !in objectDb {
        objectDb := objectDb[handle := info];
      }
      handleId := Succ(handleId);
    }

    method EndSendObject(handle: nat, format: nat, succeeded: bool, size: nat)
      modifies this
      ensures View() == EndSend(old(View()), handle, format, succeeded, size)
    {
      if handle !in objectDb {
        return;
      }
      if !succeeded {
        objectDb := objectDb - {handle};
      } else if format != ASSOCIATION {
        objectDb := objectDb[handle := objectDb[handle].(size := size)];
      }
    }

    /** Deletes an entry and everything below it. The loop goes over the keys there were when it began. */
    method DeleteFile(handle: nat) returns (ok: bool)
      requires Tree(objectDb)
      modifies this`objectDb
      ensures ok == (handle != 0 && handle != ROOT && handle in old(objectDb))
      ensures objectDb == if ok then Pruned(old(objectDb), handle) else old(objectDb)
      ensures Tree(objectDb)
      decreases ROOT - handle
    {
      if handle == 0 || handle == ROOT {
        return false;
      }
      if handle !in objectDb {
        return false;
      }
      ghost var o := objectDb;
      if objectDb[handle].format == ASSOCIATION {
        DeleteChildren(handle);
      } else {
        PrunedFile(o, handle);
      }
      objectDb := objectDb - {handle};
      PrunedIsTree(o, handle);
      ok := true;
    }

    method DeleteChildren(handle: nat)
      requires Tree(objectDb) && handle in objectDb
      modifies this`objectDb
      ensures handle in objectDb && objectDb - {handle} == Pruned(old(objectDb), handle)
      decreases ROOT - handle, 0
    {
      ghost var o := objectDb;
      var rest := objectDb.Keys;
      assert Partly(o, objectDb, handle, rest);
      while rest != {}
        invariant Partly(o, objectDb, handle, rest) && Tree(objectDb)
        decreases |rest|
      {
        var key :| key in rest;
        if key in objectDb && objectDb[key].parent == handle {
          ChildDeleted(o, objectDb, handle, rest, key);
          assert ParentOk(o, key);
          var ok := DeleteFile(key);
        } else {
          OtherSkipped(o, objectDb, handle, rest, key);
        }
        rest := rest - {key};
        PartlyIsTree(o, objectDb, handle, rest);
      }
      AllDeleted(o, objectDb, handle);
    }

    /** The handles below a parent in a storage, of one format or, with 0, of any. */
    method GetObjectList(storage: nat, format: nat, parent: nat) returns (list: set<nat>)
      ensures var p := if parent == ROOT then 0 else parent;
              list == if p != 0 && p !in objectDb then {}
                      else set k | k in objectDb && objectDb[k].storage == storage && objectDb[k].parent == p
                                   && (format == 0 || objectDb[k].format == format)
    {
      var p := if parent == ROOT then 0 else parent;
      list := {};
      if p != 0 && p !in objectDb {
        return;
      }
      var rest := objectDb.Keys;
      while rest != {}
        invariant rest <= objectDb.Keys
        invariant list == set k | k in objectDb && k !in rest && Asked(objectDb[k], storage, format, p)
        decreases |rest|
      {
        var key :| key in rest;
        if Asked(objectDb[key], storage, format, p) {
          list := list + {key};
        }
        rest := rest - {key};
      }
    }
  }
}
