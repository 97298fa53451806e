/** shared_ptr and weak_ptr: who keeps an object alive, and who keeps the block with its counts. Objects may hold
    pointers themselves, so that destroying one may destroy others; among them may be a weak pointer to the object
    itself. */
module SharedPtr {
  import opened Common

  type Addr = nat
  type Handle = nat

  datatype Block = Block(shared: int, weak: int)

  type Refs = map<Handle, Option<Addr>>

  /** Memory: the blocks not freed; the shared_ptrs and weak_ptrs that exist, each with its m_block; the objects not
      destroyed, named by their blocks, with the pointers that are their members. Numbers from next on are unused; the
      rest is history. */
  datatype Mem = Mem(
    blocks: map<Addr, Block>, strong: Refs, weak: Refs, members: map<Addr, seq<Handle>>,
    next: nat, made: set<Addr>, destroyed: seq<Addr>, freed: seq<Addr>)

  ghost function Holders(refs: Refs, b: Addr): set<Handle> {
    set h | h in refs && refs[h] == Some(b)
  }

  /** Each count is the number of pointers that exist, and none points to a freed block. */
  ghost predicate StrongExact(blocks: map<Addr, Block>, strong: Refs) {
    && (forall b {:trigger blocks[b]} | b in blocks :: blocks[b].shared == |Holders(strong, b)|)
    && (forall h | h in strong && strong[h].Some? :: strong[h].value in blocks)
  }

  ghost predicate WeakExact(blocks: map<Addr, Block>, weak: Refs) {
    && (forall b {:trigger blocks[b]} | b in blocks :: blocks[b].weak == |Holders(weak, b)|)
    && (forall h | h in weak && weak[h].Some? :: weak[h].value in blocks)
  }

  /** busy are the objects whose destructors are running, each with the last shared_ptr to it. But for those, an object
      exists just while a shared_ptr points to it, and a block just while anything does. */
  ghost predicate Kept(blocks: map<Addr, Block>, members: map<Addr, seq<Handle>>, strong: Refs, busy: map<Addr,
                       Handle>) {
    && (forall b | b in members :: b in blocks)
    && (forall b {:trigger b in busy} | b in busy ::
          b in blocks && blocks[b].shared == 1 && busy[b] in strong && strong[busy[b]] == Some(b))
    && (forall b {:trigger blocks[b]} | b in blocks && b !in busy ::
          (b in members <==> blocks[b].shared > 0) && (b in members || blocks[b].weak > 0))
  }

  ghost predicate MemberOf(members: map<Addr, seq<Handle>>, b: Addr, i: int, h: Handle) {
    b in members && 0 <= i < |members[b]| && members[b][i] == h
  }

  ghost predicate Member(members: map<Addr, seq<Handle>>, h: Handle) {
    exists b, i {:trigger MemberOf(members, b, i, h)} :: MemberOf(members, b, i, h)
  }

  /** A pointer is a member of one object at most, and once. */
  ghost predicate Owned(members: map<Addr, seq<Handle>>, pointers: set<Handle>, busy: map<Addr, Handle>) {
    && (forall b, i, h {:trigger MemberOf(members, b, i, h)} | MemberOf(members, b, i, h) ::
          h in pointers && h !in busy.Values)
    && (forall b, i, c, j, h {:trigger MemberOf(members, b, i, h), MemberOf(members, c, j, h)}
          | MemberOf(members, b, i, h) && MemberOf(members, c, j, h) :: b == c && i == j)
  }

  /** Of all that were made, those gone went once, and the others are there. */
  ghost predicate OnceEach(made: set<Addr>, there: set<Addr>, gone: seq<Addr>) {
    Distinct(gone) && forall b :: (b in made <==> b in there || b in gone) && !(b in there && b in gone)
  }

  ghost predicate Numbered(pointers: set<Handle>, made: set<Addr>, next: nat) {
    (forall h | h in pointers :: h < next) && forall b | b in made :: b < next
  }

  ghost predicate Good(m: Mem, busy: map<Addr, Handle>) {
    && StrongExact(m.blocks, m.strong) && WeakExact(m.blocks, m.weak) && m.strong.Keys !! m.weak.Keys
    && Kept(m.blocks, m.members, m.strong, busy) && Owned(m.members, m.strong.Keys + m.weak.Keys, busy)
    && OnceEach(m.made, m.members.Keys, m.destroyed) && OnceEach(m.made, m.blocks.Keys, m.freed)
    && Numbered(m.strong.Keys + m.weak.Keys, m.made, m.next)
  }

  /** An object has been destroyed just when no shared_ptr points to it, a block freed just when nothing does. */
  lemma Lifetimes(m: Mem)
    requires Good(m, map[])
    ensures forall b {:trigger b in m.destroyed} | b in m.made :: b in m.destroyed <==> Holders(m.strong, b) == {}
    ensures forall b {:trigger b in m.freed} | b in m.made ::
              b in m.freed <==> Holders(m.strong, b) == {} && Holders(m.weak, b) == {}
  {
  }

  // ----- the steps a destructor takes -----

  /** The block b with its counts as in k, or freed if both are 0. */
  function BlockLeft(blocks: map<Addr, Block>, b: Addr, k: Block): map<Addr, Block> {
    if k.shared == 0 && k.weak == 0 then blocks - {b} else blocks[b := k]
  }

  lemma HolderRemoved(refs: Refs, h: Handle, b: Addr, c: Addr)
    requires h in refs && refs[h] == Some(b)
    ensures |Holders(refs - {h}, c)| == |Holders(refs, c)| - if c == b then 1 else 0
    ensures |Holders(refs, b)| > 0 && (|Holders(refs, b)| == 1 ==> forall g | g in refs - {h} :: refs[g] != Some(b))
  {
    assert h in Holders(refs, b);
    assert Holders(refs - {h}, c) == Holders(refs, c) - {h};
    if |Holders(refs, b)| == 1 {
      assert |Holders(refs, b) - {h}| == 0;
      forall g | g in refs - {h} ensures refs[g] != Some(b) {
        assert g !in Holders(refs, b) - {h};
      }
    }
  }

  lemma StrongRemoved(blocks: map<Addr, Block>, strong: Refs, h: Handle, b: Addr, w: int)
    requires StrongExact(blocks, strong) && h in strong && strong[h] == Some(b)
    ensures b in blocks && blocks[b].shared > 0
    ensures StrongExact(BlockLeft(blocks, b, Block(blocks[b].shared - 1, w)), strong - {h})
  {
    hide Holders;
    HolderRemoved(strong, h, b, b);
    forall c ensures |Holders(strong - {h}, c)| == |Holders(strong, c)| - if c == b then 1 else 0 {
      HolderRemoved(strong, h, b, c);
    }
  }

  lemma WeakRemoved(blocks: map<Addr, Block>, weak: Refs, h: Handle, b: Addr, n: int)
    requires WeakExact(blocks, weak) && h in weak && weak[h] == Some(b)
    ensures b in blocks && blocks[b].weak > 0
    ensures WeakExact(BlockLeft(blocks, b, Block(n, blocks[b].weak - 1)), weak - {h})
  {
    hide Holders;
    HolderRemoved(weak, h, b, b);
    forall c ensures |Holders(weak - {h}, c)| == |Holders(weak, c)| - if c == b then 1 else 0 {
      HolderRemoved(weak, h, b, c);
    }
  }

  /** The other count does not change; if it is 0, nothing is left pointing to a freed block. */
  lemma StrongStays(blocks: map<Addr, Block>, strong: Refs, b: Addr, w: int)
    requires StrongExact(blocks, strong) && b in blocks
    ensures StrongExact(BlockLeft(blocks, b, Block(blocks[b].shared, w)), strong)
  {
    if blocks[b].shared == 0 {
      assert forall g | g in strong && strong[g] == Some(b) :: g in Holders(strong, b);
    }
  }

  lemma WeakStays(blocks: map<Addr, Block>, weak: Refs, b: Addr, n: int)
    requires WeakExact(blocks, weak) && b in blocks
    ensures WeakExact(BlockLeft(blocks, b, Block(n, blocks[b].weak)), weak)
  {
    if blocks[b].weak == 0 {
      assert forall g | g in weak && weak[g] == Some(b) :: g in Holders(weak, b);
    }
  }

  ghost function FreedThen(m: Mem, b: Addr, k: Block): seq<Addr> {
    if k.shared == 0 && k.weak == 0 then m.freed + [b] else m.freed
  }

  lemma FreedOnce(made: set<Addr>, blocks: map<Addr, Block>, freed: seq<Addr>, b: Addr, k: Block)
    requires OnceEach(made, blocks.Keys, freed) && b in blocks
    ensures OnceEach(made, BlockLeft(blocks, b, k).Keys, if k.shared == 0 && k.weak == 0 then freed + [b] else freed)
  {
  }

  lemma GoneOnce(made: set<Addr>, there: set<Addr>, gone: seq<Addr>, b: Addr)
    requires OnceEach(made, there, gone) && b in there
    ensures OnceEach(made, there - {b}, gone + [b])
  {
  }

  lemma FewerOwned(members: map<Addr, seq<Handle>>, pointers: set<Handle>, busy: map<Addr, Handle>, h: Handle)
    requires Owned(members, pointers, busy) && !Member(members, h)
    ensures Owned(members, pointers - {h}, busy)
  {
  }

  lemma KeptAfterWeak(blocks: map<Addr, Block>, members: map<Addr, seq<Handle>>, strong: Refs, busy: map<Addr,
                      Handle>, b: Addr)
    requires Kept(blocks, members, strong, busy) && b in blocks && blocks[b].weak > 0 && blocks[b].shared >= 0
    ensures Kept(BlockLeft(blocks, b, Block(blocks[b].shared, blocks[b].weak - 1)), members, strong, busy)
  {
  }

  lemma KeptAfterStrong(blocks: map<Addr, Block>, members: map<Addr, seq<Handle>>, strong: Refs, busy: map<Addr,
                        Handle>, b: Addr, h: Handle)
    requires Kept(blocks, members, strong, busy) && b in blocks && blocks[b].shared > 0 && h !in busy.Values
    requires b !in busy && blocks[b].shared != 1
    ensures Kept(BlockLeft(blocks, b, Block(blocks[b].shared - 1, blocks[b].weak)), members, strong - {h}, busy)
  {
  }

  lemma KeptWithoutNull(blocks: map<Addr, Block>, members: map<Addr, seq<Handle>>, strong: Refs, busy: map<Addr,
                        Handle>, h: Handle)
    requires Kept(blocks, members, strong, busy) && h !in busy.Values
    ensures Kept(blocks, members, strong - {h}, busy)
  {
  }

  lemma KeptAfterLast(blocks: map<Addr, Block>, members: map<Addr, seq<Handle>>, strong: Refs, busy: map<Addr,
                      Handle>, b: Addr, h: Handle)
    requires Kept(blocks, members, strong, busy) && b in blocks && blocks[b].weak >= 0
    requires b in busy && busy[b] == h && b !in members
    ensures Kept(BlockLeft(blocks, b, Block(blocks[b].shared - 1, blocks[b].weak)), members, strong - {h}, busy - {b})
  {
  }

  /** ~weak_ptr: release_weak, and delete m_block when both counts are 0. */
  ghost function WeakReleased(m: Mem, h: Handle): Mem
    requires h in m.weak
  {
    if m.weak[h].None? || m.weak[h].value !in m.blocks then m.(weak := m.weak - {h}) else
    var b := m.weak[h].value;
    var k := Block(m.blocks[b].shared, m.blocks[b].weak - 1);
    m.(weak := m.weak - {h}, blocks := BlockLeft(m.blocks, b, k), freed := FreedThen(m, b, k))
  }

  lemma CountsNotNegative(blocks: map<Addr, Block>, strong: Refs, weak: Refs)
    requires StrongExact(blocks, strong) && WeakExact(blocks, weak)
    ensures forall b {:trigger blocks[b]} | b in blocks :: blocks[b].shared >= 0 && blocks[b].weak >= 0
    ensures forall h | h in strong && strong[h].Some? :: strong[h].value in blocks
    ensures forall h | h in weak && weak[h].Some? :: weak[h].value in blocks
  {
  }

  lemma StillNumbered(m: Mem, h: Handle)
    requires Numbered(m.strong.Keys + m.weak.Keys, m.made, m.next)
    ensures Numbered(m.strong.Keys + m.weak.Keys - {h}, m.made, m.next)
  {
  }

  lemma WeakReleasedGood(m: Mem, busy: map<Addr, Handle>, h: Handle)
    requires Good(m, busy) && h in m.weak && !Member(m.members, h)
    ensures Good(WeakReleased(m, h), busy)
  {
    hide StrongExact, WeakExact, Owned, OnceEach, Kept, BlockLeft, Numbered;
    CountsNotNegative(m.blocks, m.strong, m.weak);
    StillNumbered(m, h);
    var r := WeakReleased(m, h);
    FewerOwned(m.members, m.strong.Keys + m.weak.Keys, busy, h);
    assert r.strong.Keys + r.weak.Keys == m.strong.Keys + m.weak.Keys - {h};
    if m.weak[h].Some? {
      var b := m.weak[h].value;
      WeakRemoved(m.blocks, m.weak, h, b, m.blocks[b].shared);
      StrongStays(m.blocks, m.strong, b, m.blocks[b].weak - 1);
      FreedOnce(m.made, m.blocks, m.freed, b, Block(m.blocks[b].shared, m.blocks[b].weak - 1));
      KeptAfterWeak(m.blocks, m.members, m.strong, busy, b);
      assert r.blocks == BlockLeft(m.blocks, b, Block(m.blocks[b].shared, m.blocks[b].weak - 1));
    } else {
      NullRemoved(m.blocks, m.weak, h);
    }
    assert Good(r, busy);
  }

  lemma NullRemoved(blocks: map<Addr, Block>, refs: Refs, h: Handle)
    requires h in refs && refs[h].None?
    ensures StrongExact(blocks, refs) ==> StrongExact(blocks, refs - {h})
    ensures WeakExact(blocks, refs) ==> WeakExact(blocks, refs - {h})
  {
    forall c ensures Holders(refs - {h}, c) == Holders(refs, c) {
    }
  }

  /** What ~shared_ptr does besides running the deleter. */
  ghost function StrongReleased(m: Mem, h: Handle): Mem
    requires h in m.strong
  {
    if m.strong[h].None? || m.strong[h].value !in m.blocks then m.(strong := m.strong - {h}) else
    var b := m.strong[h].value;
    var k := Block(m.blocks[b].shared - 1, m.blocks[b].weak);
    m.(strong := m.strong - {h}, blocks := BlockLeft(m.blocks, b, k), freed := FreedThen(m, b, k))
  }

  /** Either another shared_ptr remains, or the object has just been destroyed. */
  lemma StrongReleasedGood(m: Mem, busy: map<Addr, Handle>, h: Handle)
    requires Good(m, busy) && h in m.strong && !Member(m.members, h) && h !in busy.Values
    requires m.strong[h].None? || (m.strong[h].value !in busy && m.blocks[m.strong[h].value].shared != 1)
    ensures Good(StrongReleased(m, h), busy)
  {
    hide StrongExact, WeakExact, Owned, OnceEach, Kept, BlockLeft, Numbered;
    CountsNotNegative(m.blocks, m.strong, m.weak);
    StillNumbered(m, h);
    var r := StrongReleased(m, h);
    FewerOwned(m.members, m.strong.Keys + m.weak.Keys, busy, h);
    assert r.strong.Keys + r.weak.Keys == m.strong.Keys + m.weak.Keys - {h};
    if m.strong[h].Some? {
      var b := m.strong[h].value;
      StrongRemoved(m.blocks, m.strong, h, b, m.blocks[b].weak);
      WeakStays(m.blocks, m.weak, b, m.blocks[b].shared - 1);
      FreedOnce(m.made, m.blocks, m.freed, b, Block(m.blocks[b].shared - 1, m.blocks[b].weak));
      KeptAfterStrong(m.blocks, m.members, m.strong, busy, b, h);
      assert r.blocks == BlockLeft(m.blocks, b, Block(m.blocks[b].shared - 1, m.blocks[b].weak));
    } else {
      NullRemoved(m.blocks, m.strong, h);
      KeptWithoutNull(m.blocks, m.members, m.strong, busy, h);
    }
    assert Good(r, busy);
  }

  lemma FewerBusy(members: map<Addr, seq<Handle>>, pointers: set<Handle>, busy: map<Addr, Handle>, b: Addr)
    requires Owned(members, pointers, busy)
    ensures Owned(members, pointers, busy - {b})
  {
  }

  lemma LastReleasedGood(m: Mem, busy: map<Addr, Handle>, h: Handle, b: Addr)
    requires Good(m, busy) && b in busy && busy[b] == h && b !in m.members && !Member(m.members, h)
    ensures h in m.strong && Good(StrongReleased(m, h), busy - {b})
  {
    hide StrongExact, WeakExact, Owned, OnceEach, BlockLeft, Numbered;
    assert h in m.strong && m.strong[h] == Some(b) && b in m.blocks && m.blocks[b].shared == 1;
    CountsNotNegative(m.blocks, m.strong, m.weak);
    StillNumbered(m, h);
    var r := StrongReleased(m, h);
    FewerOwned(m.members, m.strong.Keys + m.weak.Keys, busy, h);
    assert r.strong.Keys + r.weak.Keys == m.strong.Keys + m.weak.Keys - {h};
    StrongRemoved(m.blocks, m.strong, h, b, m.blocks[b].weak);
    WeakStays(m.blocks, m.weak, b, m.blocks[b].shared - 1);
    FreedOnce(m.made, m.blocks, m.freed, b, Block(m.blocks[b].shared - 1, m.blocks[b].weak));
    KeptAfterLast(m.blocks, m.members, m.strong, busy, b, h);
    FewerBusy(m.members, r.strong.Keys + r.weak.Keys, busy, b);
  }

  lemma DestructorStarts(m: Mem, busy: map<Addr, Handle>, h: Handle, b: Addr)
    requires Good(m, busy) && h in m.strong && m.strong[h] == Some(b) && m.blocks[b].shared == 1
    requires !Member(m.members, h) && h !in busy.Values
    ensures b !in busy && b in m.members && Good(m, busy[b := h])
  {
    assert h in Holders(m.strong, b);
    OnlyOne(Holders(m.strong, b), h, if b in busy then busy[b] else h);
    assert busy[b := h].Values <= busy.Values + {h};
    forall c, i, g | MemberOf(m.members, c, i, g) ensures g !in busy[b := h].Values {
      assert g != h;
    }
    hide StrongExact, WeakExact, OnceEach;
  }

  lemma OnlyOne(s: set<Handle>, g: Handle, h: Handle)
    requires |s| == 1 && g in s && h in s
    ensures g == h
  {
    assert |s - {g}| == 0;
  }

  /** The destructor reaches the object's last remaining member, and forgets it. */
  ghost function Detached(m: Mem, b: Addr): Mem
    requires b in m.members && m.members[b] != []
  {
    m.(members := m.members[b := m.members[b][..|m.members[b]| - 1]])
  }

  lemma DetachedGood(m: Mem, busy: map<Addr, Handle>, b: Addr)
    requires Good(m, busy) && b in busy && b in m.members && m.members[b] != []
    ensures var k := |m.members[b]| - 1; var h := m.members[b][k];
            && Good(Detached(m, b), busy) && !Member(Detached(m, b).members, h) && h !in busy.Values
            && h in m.strong.Keys + m.weak.Keys
  {
    hide StrongExact, WeakExact, OnceEach, Numbered;
    var k := |m.members[b]| - 1;
    var h := m.members[b][k];
    var members' := Detached(m, b).members;
    assert MemberOf(m.members, b, k, h);
    forall c, i, g | MemberOf(members', c, i, g) ensures MemberOf(m.members, c, i, g) && g != h {
      assert MemberOf(m.members, c, i, g);
    }
    assert members'.Keys == m.members.Keys;
  }

  ghost function ObjectGone(m: Mem, b: Addr): Mem {
    m.(members := m.members - {b}, destroyed := m.destroyed + [b])
  }

  lemma ObjectGoneGood(m: Mem, busy: map<Addr, Handle>, b: Addr)
    requires Good(m, busy) && b in busy && b in m.members && m.members[b] == []
    ensures Good(ObjectGone(m, b), busy)
  {
    hide StrongExact, WeakExact, OnceEach, Numbered;
    GoneOnce(m.made, m.members.Keys, m.destroyed, b);
    var members' := m.members - {b};
    forall c, i, g | MemberOf(members', c, i, g) ensures MemberOf(m.members, c, i, g) {
    }
    assert members'.Keys == m.members.Keys - {b};
  }

  /** What a destructor leaves of the rest: pointers no object owns, the pointers whose destructors are running and the
      objects those destroy stay; nothing is redirected. */
  ghost predicate Spared(m: Mem, r: Mem, busy: map<Addr, Handle>, h: Handle) {
    && r.strong.Keys <= m.strong.Keys && r.weak.Keys <= m.weak.Keys && r.members.Keys <= m.members.Keys
    && (forall g | g in r.strong :: r.strong[g] == m.strong[g])
    && (forall g | g in r.weak :: r.weak[g] == m.weak[g])
    && (forall b | b in r.members :: r.members[b] <= m.members[b] && (b !in busy ==> r.members[b] == m.members[b]))
    && (forall g {:trigger Member(m.members, g)} | !Member(m.members, g) && g != h ::
          (g in m.strong ==> g in r.strong) && (g in m.weak ==> g in r.weak))
    && (forall b | b in busy && b in m.members :: b in r.members)
    && r.next == m.next && r.made == m.made && m.destroyed <= r.destroyed && m.freed <= r.freed
  }

  lemma ReleasesSpare(m: Mem, busy: map<Addr, Handle>, h: Handle)
    ensures h in m.weak ==> Spared(m, WeakReleased(m, h), busy, h)
    ensures h in m.strong ==> Spared(m, StrongReleased(m, h), busy, h)
  {
  }

  lemma NotBusy(m: Mem, busy: map<Addr, Handle>, b: Addr)
    requires Good(m, busy) && b in m.blocks && m.blocks[b].shared != 1
    ensures b !in busy
  {
  }

  lemma NotBoth(m: Mem, busy: map<Addr, Handle>)
    requires Good(m, busy)
    ensures m.strong.Keys !! m.weak.Keys
  {
  }

  lemma PointsToBlock(m: Mem, busy: map<Addr, Handle>)
    requires Good(m, busy)
    ensures forall h | h in m.strong && m.strong[h].Some? :: m.strong[h].value in m.blocks
    ensures forall h | h in m.weak && m.weak[h].Some? :: m.weak[h].value in m.blocks
    ensures forall b | b in busy :: b in m.blocks && busy[b] in m.strong && m.strong[busy[b]] == Some(b)
  {
  }

  /** The same when, besides, the object b has gone. */
  ghost predicate SparedBut(m: Mem, r: Mem, busy: map<Addr, Handle>, b: Addr)
    requires b in busy
  {
    b !in r.members && Spared(m, r, busy - {b}, busy[b])
  }

  lemma SparedTwice(m: Mem, n: Mem, r: Mem, busy: map<Addr, Handle>, g: Handle, h: Handle)
    requires Spared(m, n, busy, g) && Spared(n, r, busy, h)
    requires g == h || Member(m.members, h)
    ensures Spared(m, r, busy, g)
  {
    forall x | !Member(m.members, x) ensures !Member(n.members, x) {
      if Member(n.members, x) {
        var b, i :| MemberOf(n.members, b, i, x);
        assert MemberOf(m.members, b, i, x);
      }
    }
  }

  /** A pointer that has lost its object has gone with it. */
  ghost predicate Swept(m: Mem, r: Mem) {
    && r.strong.Keys <= m.strong.Keys && r.weak.Keys <= m.weak.Keys
    && forall x {:trigger Member(m.members, x)} | Member(m.members, x) && !Member(r.members, x) ::
         x !in r.strong && x !in r.weak
  }

  lemma SweptTwice(m: Mem, n: Mem, r: Mem)
    requires Swept(m, n) && Swept(n, r)
    ensures Swept(m, r)
  {
    hide Member;
  }

  lemma SameMembersSwept(m: Mem, r: Mem)
    requires r.members == m.members && r.strong.Keys <= m.strong.Keys && r.weak.Keys <= m.weak.Keys
    ensures Swept(m, r)
  {
  }

  /** The last member of b, x, is detached and destroyed. */
  lemma DetachedSwept(m: Mem, b: Addr, r: Mem)
    requires b in m.members && m.members[b] != [] && Swept(Detached(m, b), r)
    requires var x := m.members[b][|m.members[b]| - 1]; x !in r.strong && x !in r.weak
    ensures Swept(m, r)
  {
    var d, x := Detached(m, b), m.members[b][|m.members[b]| - 1];
    forall y | Member(m.members, y) && y != x ensures Member(d.members, y) {
      var c, i :| MemberOf(m.members, c, i, y);
      assert MemberOf(d.members, c, i, y);
    }
  }

  lemma ObjectGoneSwept(m: Mem, b: Addr)
    requires b in m.members && m.members[b] == []
    ensures Swept(m, ObjectGone(m, b))
  {
    forall y | Member(m.members, y) ensures Member(ObjectGone(m, b).members, y) {
      var c, i :| MemberOf(m.members, c, i, y);
      assert MemberOf(ObjectGone(m, b).members, c, i, y);
    }
  }

  lemma ReleasesSwept(m: Mem, h: Handle)
    ensures h in m.weak ==> Swept(m, WeakReleased(m, h))
    ensures h in m.strong ==> Swept(m, StrongReleased(m, h))
  {
  }

  lemma NotAMember(m: Mem, r: Mem, busy: map<Addr, Handle>, h: Handle)
    requires Spared(m, r, busy, h) && !Member(m.members, h)
    ensures !Member(r.members, h)
  {
    if Member(r.members, h) {
      var c, i :| MemberOf(r.members, c, i, h);
      assert MemberOf(m.members, c, i, h);
    }
  }

  lemma MoreBusy(busy: map<Addr, Handle>, b: Addr, h: Handle)
    requires b !in busy
    ensures busy[b := h].Values == busy.Values + {h}
  {
    var more := busy[b := h];
    forall v | v in busy.Values ensures v in more.Values {
      var c :| c in busy && busy[c] == v;
      assert more[c] == v;
    }
    assert more[b] == h;
  }

  lemma SparedItself(m: Mem, busy: map<Addr, Handle>, h: Handle)
    ensures Spared(m, m, busy, h)
  {
  }

  lemma DetachedSpares(m: Mem, busy: map<Addr, Handle>, b: Addr)
    requires b in busy && b in m.members && m.members[b] != []
    ensures Spared(m, Detached(m, b), busy, busy[b]) && Member(m.members, m.members[b][|m.members[b]| - 1])
  {
    assert MemberOf(m.members, b, |m.members[b]| - 1, m.members[b][|m.members[b]| - 1]);
  }

  lemma ObjectGoneSpares(was: Mem, m: Mem, busy: map<Addr, Handle>, b: Addr)
    requires b in busy && Spared(was, m, busy, busy[b])
    ensures SparedBut(was, ObjectGone(m, b), busy, b)
  {
  }

  lemma StillThere(m: Mem, r: Mem, busy: map<Addr, Handle>, b: Addr, h: Handle)
    requires Spared(m, r, busy, h) && b in busy && b in m.members
    ensures b in r.members && |r.members[b]| <= |m.members[b]| && r.strong.Keys <= m.strong.Keys
  {
  }

  // ----- the steps that make pointers, no destructor running -----

  function NullStrong(m: Mem): Mem {
    m.(strong := m.strong[m.next := None], next := m.next + 1)
  }

  function NullWeak(m: Mem): Mem {
    m.(weak := m.weak[m.next := None], next := m.next + 1)
  }

  /** A null pointer comes to point to block b, and counts. */
  function PointedStrong(m: Mem, h: Handle, b: Addr): Mem
    requires b in m.blocks
  {
    m.(strong := m.strong[h := Some(b)], blocks := m.blocks[b := Block(m.blocks[b].shared + 1, m.blocks[b].weak)])
  }

  function PointedWeak(m: Mem, h: Handle, b: Addr): Mem
    requires b in m.blocks
  {
    m.(weak := m.weak[h := Some(b)], blocks := m.blocks[b := Block(m.blocks[b].shared, m.blocks[b].weak + 1)])
  }

  function Exchanged(refs: Refs, g: Handle, h: Handle): Refs
    requires g in refs && h in refs
  {
    refs[g := refs[h]][h := refs[g]]
  }

  /** A new object with its members, its block, and h the first shared_ptr to it. */
  function MadeObject(m: Mem, h: Handle, ms: seq<Handle>): Mem {
    m.(blocks := m.blocks[m.next := Block(1, 0)], strong := m.strong[h := Some(m.next)],
       members := m.members[m.next := ms], made := m.made + {m.next}, next := m.next + 1)
  }

  lemma SameHolders(refs: Refs, refs': Refs, h: Handle)
    requires h !in refs && refs' == refs[h := None]
    ensures forall c :: Holders(refs', c) == Holders(refs, c)
  {
  }

  lemma NullAdded(blocks: map<Addr, Block>, refs: Refs, h: Handle)
    requires h !in refs
    ensures StrongExact(blocks, refs) ==> StrongExact(blocks, refs[h := None])
    ensures WeakExact(blocks, refs) ==> WeakExact(blocks, refs[h := None])
  {
    SameHolders(refs, refs[h := None], h);
    hide Holders;
  }

  lemma MoreOwned(members: map<Addr, seq<Handle>>, pointers: set<Handle>, h: Handle)
    requires Owned(members, pointers, map[])
    ensures Owned(members, pointers + {h}, map[])
  {
  }

  lemma NextIsNew(m: Mem)
    requires Good(m, map[])
    ensures m.next !in m.strong && m.next !in m.weak && m.next !in m.made && m.next !in m.blocks && m.next !in m.members
  {
  }

  lemma NumberedMore(m: Mem)
    requires Numbered(m.strong.Keys + m.weak.Keys, m.made, m.next)
    ensures Numbered(m.strong.Keys + m.weak.Keys + {m.next}, m.made, m.next + 1)
    ensures Numbered(m.strong.Keys + m.weak.Keys, m.made + {m.next}, m.next + 1)
  {
  }

  lemma OtherStrong(blocks: map<Addr, Block>, members: map<Addr, seq<Handle>>, strong: Refs, strong': Refs)
    requires Kept(blocks, members, strong, map[])
    ensures Kept(blocks, members, strong', map[])
  {
  }

  lemma NullStrongGood(m: Mem)
    requires Good(m, map[])
    ensures Good(NullStrong(m), map[])
  {
    NextIsNew(m);
    hide StrongExact, WeakExact, Owned, OnceEach, Kept, Numbered;
    OtherStrong(m.blocks, m.members, m.strong, m.strong[m.next := None]);
    NumberedMore(m);
    NullAdded(m.blocks, m.strong, m.next);
    MoreOwned(m.members, m.strong.Keys + m.weak.Keys, m.next);
    assert NullStrong(m).strong.Keys + m.weak.Keys == m.strong.Keys + m.weak.Keys + {m.next};
  }

  lemma NullWeakGood(m: Mem)
    requires Good(m, map[])
    ensures Good(NullWeak(m), map[])
  {
    NextIsNew(m);
    hide StrongExact, WeakExact, Owned, OnceEach, Kept, Numbered;
    NumberedMore(m);
    NullAdded(m.blocks, m.weak, m.next);
    MoreOwned(m.members, m.strong.Keys + m.weak.Keys, m.next);
    assert m.strong.Keys + NullWeak(m).weak.Keys == m.strong.Keys + m.weak.Keys + {m.next};
  }

  lemma HolderAdded(refs: Refs, h: Handle, b: Addr, c: Addr)
    requires h in refs && refs[h].None?
    ensures |Holders(refs[h := Some(b)], c)| == |Holders(refs, c)| + if c == b then 1 else 0
  {
    var more := refs[h := Some(b)];
    assert h !in Holders(refs, c);
    if c == b {
      assert Holders(more, c) == Holders(refs, c) + {h};
    } else {
      assert Holders(more, c) == Holders(refs, c);
    }
  }

  lemma StrongAdded(blocks: map<Addr, Block>, strong: Refs, h: Handle, b: Addr)
    requires StrongExact(blocks, strong) && h in strong && strong[h].None? && b in blocks
    ensures StrongExact(blocks[b := Block(blocks[b].shared + 1, blocks[b].weak)], strong[h := Some(b)])
  {
    hide Holders;
    forall c ensures |Holders(strong[h := Some(b)], c)| == |Holders(strong, c)| + if c == b then 1 else 0 {
      HolderAdded(strong, h, b, c);
    }
  }

  lemma WeakAdded(blocks: map<Addr, Block>, weak: Refs, h: Handle, b: Addr)
    requires WeakExact(blocks, weak) && h in weak && weak[h].None? && b in blocks
    ensures WeakExact(blocks[b := Block(blocks[b].shared, blocks[b].weak + 1)], weak[h := Some(b)])
  {
    hide Holders;
    forall c ensures |Holders(weak[h := Some(b)], c)| == |Holders(weak, c)| + if c == b then 1 else 0 {
      HolderAdded(weak, h, b, c);
    }
  }

  lemma KeptAfterAdding(m: Mem, b: Addr, k: Block, strong: Refs)
    requires Kept(m.blocks, m.members, m.strong, map[]) && b in m.blocks
    requires k.shared > 0 <==> m.blocks[b].shared > 0
    requires m.blocks[b].weak <= k.weak
    ensures Kept(m.blocks[b := k], m.members, strong, map[])
  {
  }

  lemma PointedStrongGood(m: Mem, h: Handle, b: Addr)
    requires Good(m, map[]) && h in m.strong && m.strong[h].None? && b in m.blocks && m.blocks[b].shared > 0
    ensures Good(PointedStrong(m, h, b), map[])
  {
    hide OnceEach, StrongExact, WeakExact, Owned, Kept, Numbered;
    var k := Block(m.blocks[b].shared + 1, m.blocks[b].weak);
    StrongAdded(m.blocks, m.strong, h, b);
    WeakUnchanged(m.blocks, m.weak, b, k);
    KeptAfterAdding(m, b, k, m.strong[h := Some(b)]);
    assert m.blocks[b := k].Keys == m.blocks.Keys && m.strong[h := Some(b)].Keys == m.strong.Keys;
  }

  lemma PointedWeakGood(m: Mem, h: Handle, b: Addr)
    requires Good(m, map[]) && h in m.weak && m.weak[h].None? && b in m.blocks
    ensures Good(PointedWeak(m, h, b), map[])
  {
    hide OnceEach, StrongExact, WeakExact, Owned, Kept, Numbered;
    var k := Block(m.blocks[b].shared, m.blocks[b].weak + 1);
    WeakAdded(m.blocks, m.weak, h, b);
    StrongUnchanged(m.blocks, m.strong, b, k);
    KeptAfterAdding(m, b, k, m.strong);
    assert m.blocks[b := k].Keys == m.blocks.Keys && m.weak[h := Some(b)].Keys == m.weak.Keys;
  }

  lemma StrongUnchanged(blocks: map<Addr, Block>, strong: Refs, b: Addr, k: Block)
    requires StrongExact(blocks, strong) && b in blocks && k.shared == blocks[b].shared
    ensures StrongExact(blocks[b := k], strong)
  {
  }

  lemma WeakUnchanged(blocks: map<Addr, Block>, weak: Refs, b: Addr, k: Block)
    requires WeakExact(blocks, weak) && b in blocks && k.weak == blocks[b].weak
    ensures WeakExact(blocks[b := k], weak)
  {
  }

  lemma SameSize(s: set<Handle>, g: Handle, h: Handle)
    requires g in s && h !in s
    ensures |s - {g} + {h}| == |s|
  {
  }

  lemma ExchangedHolders(refs: Refs, g: Handle, h: Handle, c: Addr)
    requires g in refs && h in refs
    ensures |Holders(Exchanged(refs, g, h), c)| == |Holders(refs, c)|
  {
    var s, t := Holders(refs, c), Holders(Exchanged(refs, g, h), c);
    if refs[g] == refs[h] || (refs[g] != Some(c) && refs[h] != Some(c)) {
      assert t == s;
    } else if refs[g] == Some(c) {
      assert t == s - {g} + {h};
      SameSize(s, g, h);
    } else {
      assert t == s - {h} + {g};
      SameSize(s, h, g);
    }
  }

  lemma ExchangedExact(blocks: map<Addr, Block>, refs: Refs, g: Handle, h: Handle)
    requires g in refs && h in refs
    ensures StrongExact(blocks, refs) ==> StrongExact(blocks, Exchanged(refs, g, h))
    ensures WeakExact(blocks, refs) ==> WeakExact(blocks, Exchanged(refs, g, h))
    ensures Exchanged(refs, g, h).Keys == refs.Keys
  {
    forall c ensures |Holders(Exchanged(refs, g, h), c)| == |Holders(refs, c)| {
      ExchangedHolders(refs, g, h, c);
    }
    hide Holders;
  }

  lemma ExchangedGood(m: Mem, g: Handle, h: Handle)
    requires Good(m, map[])
    ensures g in m.strong && h in m.strong ==> Good(m.(strong := Exchanged(m.strong, g, h)), map[])
    ensures g in m.weak && h in m.weak ==> Good(m.(weak := Exchanged(m.weak, g, h)), map[])
  {
    hide StrongExact, WeakExact, Owned, OnceEach, Kept, Numbered;
    if g in m.strong && h in m.strong {
      ExchangedExact(m.blocks, m.strong, g, h);
      OtherStrong(m.blocks, m.members, m.strong, Exchanged(m.strong, g, h));
    }
    if g in m.weak && h in m.weak {
      ExchangedExact(m.blocks, m.weak, g, h);
    }
  }

  /** Pointers with no owner, each given once. */
  ghost predicate Free(m: Mem, ms: seq<Handle>) {
    && Distinct(ms)
    && forall i {:trigger ms[i]} | 0 <= i < |ms| :: (ms[i] in m.strong || ms[i] in m.weak) && !Member(m.members, ms[i])
  }

  lemma BlockAdded(blocks: map<Addr, Block>, strong: Refs, weak: Refs, h: Handle, b: Addr)
    requires StrongExact(blocks, strong) && WeakExact(blocks, weak) && h in strong && strong[h].None? && b !in blocks
    ensures StrongExact(blocks[b := Block(1, 0)], strong[h := Some(b)]) && WeakExact(blocks[b := Block(1, 0)], weak)
  {
    var more := strong[h := Some(b)];
    assert forall g | g in strong :: strong[g] != Some(b);
    assert forall g | g in weak :: weak[g] != Some(b);
    forall c ensures Holders(more, c) == if c == b then {h} else Holders(strong, c) {
    }
    assert Holders(weak, b) == {};
    hide Holders;
  }

  lemma KeptMade(blocks: map<Addr, Block>, members: map<Addr, seq<Handle>>, strong: Refs, b: Addr, ms: seq<Handle>,
                 strong': Refs)
    requires Kept(blocks, members, strong, map[])
    ensures Kept(blocks[b := Block(1, 0)], members[b := ms], strong', map[])
  {
  }

  lemma MadeObjectGood(m: Mem, h: Handle, ms: seq<Handle>)
    requires Good(m, map[]) && Free(m, ms) && h in m.strong && m.strong[h].None?
    ensures Good(MadeObject(m, h, ms), map[])
  {
    var b := m.next;
    NextIsNew(m);
    hide StrongExact, WeakExact, Owned, OnceEach, Kept, Numbered;
    NumberedMore(m);
    KeptMade(m.blocks, m.members, m.strong, b, ms, m.strong[h := Some(b)]);
    BlockAdded(m.blocks, m.strong, m.weak, h, b);
    MadeOwned(m.members, m.strong.Keys + m.weak.Keys, b, ms);
    MadeOnce(m.made, m.members.Keys, m.destroyed, b);
    MadeOnce(m.made, m.blocks.Keys, m.freed, b);
    KeysWith(m.strong, h, Some(b));
    KeysWith(m.members, b, ms);
    KeysWith(m.blocks, b, Block(1, 0));
  }

  lemma KeysWith<V>(f: map<nat, V>, k: nat, v: V)
    ensures f[k := v].Keys == f.Keys + {k} && (k in f ==> f[k := v].Keys == f.Keys)
  {
  }

  lemma MadeOnce(made: set<Addr>, there: set<Addr>, gone: seq<Addr>, b: Addr)
    requires OnceEach(made, there, gone) && b !in made
    ensures OnceEach(made + {b}, there + {b}, gone)
  {
  }

  lemma MadeOwned(members: map<Addr, seq<Handle>>, pointers: set<Handle>, b: Addr, ms: seq<Handle>)
    requires Owned(members, pointers, map[]) && b !in members && Distinct(ms)
    requires forall i {:trigger ms[i]} | 0 <= i < |ms| :: ms[i] in pointers && !Member(members, ms[i])
    ensures Owned(members[b := ms], pointers, map[])
  {
    var more := members[b := ms];
    forall c, i, g | MemberOf(more, c, i, g)
      ensures g in pointers && (c == b ==> g == ms[i] && !Member(members, g)) && (c != b ==> MemberOf(members, c, i, g))
    {
      if c != b { assert MemberOf(members, c, i, g); }
    }
  }

  ghost predicate AddedWeak(m: Mem, r: Mem, h: Handle, b: Option<Addr>) {
    && r.weak == m.weak[h := b] && !Member(r.members, h) && r.next == m.next + 1
    && r.strong == m.strong && r.members == m.members && r.made == m.made
  }

  lemma ThereOrDestroyed(m: Mem)
    requires Good(m, map[])
    ensures forall b {:trigger m.blocks[b]} | b in m.blocks ::
              m.blocks[b].shared >= 0 && (b in m.destroyed <==> m.blocks[b].shared == 0)
    ensures forall h | h in m.strong && m.strong[h].Some? ::
              m.strong[h].value in m.blocks && m.blocks[m.strong[h].value].shared > 0
  {
    forall h | h in m.strong && m.strong[h].Some? ensures m.blocks[m.strong[h].value].shared > 0 {
      assert h in Holders(m.strong, m.strong[h].value);
    }
  }

  lemma CopyThenExchange(refs: Refs, t: Handle, dst: Handle, x: Option<Addr>)
    requires t !in refs && dst in refs
    ensures Exchanged(refs[t := x], t, dst) - {t} == refs[dst := x]
  {
  }

  lemma MovedByExchange(refs: Refs, h: Handle, rv: Handle)
    requires h !in refs && rv in refs
    ensures Exchanged(refs[h := None], h, rv) == refs[h := refs[rv]][rv := None]
    ensures Exchanged(refs[h := None], h, rv).Keys == refs.Keys + {h}
  {
  }

  lemma ResetByExchange(refs: Refs, t: Handle, dst: Handle)
    requires t !in refs && dst in refs
    ensures var r := Exchanged(refs[t := None], t, dst);
            r[dst] == None && (forall g | g in refs && g != dst :: r[g] == refs[g]) && r.Keys == refs.Keys + {t}
  {
  }

  lemma MoveThenExchange(refs: Refs, t: Handle, dst: Handle, rv: Handle)
    requires t !in refs && dst in refs && rv in refs
    ensures var moved := refs[t := refs[rv]][rv := None];
            var r := Exchanged(moved, t, dst);
            && r[dst] == refs[rv] && (rv != dst ==> r[rv] == None)
            && (forall g | g in refs && g != dst && g != rv :: r[g] == refs[g]) && r.Keys == refs.Keys + {t}
  {
  }

  lemma ExchangedKeys(refs: Refs, g: Handle, h: Handle)
    requires g in refs && h in refs
    ensures Exchanged(refs, g, h).Keys == refs.Keys
  {
  }

  lemma WeakReleasedFields(m: Mem, h: Handle)
    requires h in m.weak
    ensures var r := WeakReleased(m, h);
            r.weak == m.weak - {h} && r.strong == m.strong && r.members == m.members && r.made == m.made
  {
  }

  /** If dst, which points to now, was the last shared_ptr to another object, that has been destroyed, and its block
      freed unless weak pointers are left. */
  ghost predicate LastTargetGone(m: Mem, r: Mem, dst: Handle, now: Option<Addr>) {
    forall b: Addr | now != Some(b) && Holders(m.strong, b) == {dst} ::
      b in r.destroyed && (Holders(r.weak, b) == {} ==> b in r.freed)
  }

  /** What a pointer that no object owns still is after others have been destroyed. */
  lemma RootsStay(m: Mem, r: Mem, t: Handle)
    requires Spared(m, r, map[], t)
    ensures forall g | g in m.strong && g != t && !Member(m.members, g) :: g in r.strong && r.strong[g] == m.strong[g]
    ensures forall g | g in m.weak && g != t && !Member(m.members, g) :: g in r.weak && r.weak[g] == m.weak[g]
    ensures forall g | g in r.strong :: g in m.strong && r.strong[g] == m.strong[g]
  {
  }

  lemma StillFree(m: Mem, ms: seq<Handle>)
    requires Free(m, ms)
    ensures Free(NullStrong(m), ms)
  {
  }

  lemma OnlyHolder(m: Mem, h: Handle, b: Addr)
    requires Good(m, map[]) && b !in m.blocks
    ensures Holders(m.strong[h := Some(b)], b) == {h} && Holders(m.weak, b) == {}
  {
  }

  lemma NextIsFree(m: Mem)
    requires Good(m, map[])
    ensures !Member(m.members, m.next)
  {
  }

  class Memory {
    var m: Mem

    /** ~weak_ptr, for a pointer that is no member of an object. */
    method DestroyWeak(h: Handle, ghost busy: map<Addr, Handle>)
      requires Good(m, busy) && h in m.weak && !Member(m.members, h)
      modifies this
      ensures Good(m, busy) && m == WeakReleased(old(m), h) && Spared(old(m), m, busy, h) && Swept(old(m), m)
      ensures h !in m.strong && h !in m.weak
    {
      hide Member, StrongExact, WeakExact, Kept, Owned, OnceEach, Numbered;
      NotBoth(m, busy);
      WeakReleasedGood(m, busy, h);
      ReleasesSwept(m, h);
      PointsToBlock(m, busy);
      ReleasesSpare(m, busy, h);
      hide Good, Spared, Swept;
      var b := m.weak[h];
      if b.Some? {
        PutBlock(b.value, Block(m.blocks[b.value].shared, m.blocks[b.value].weak - 1));
      }
      m := m.(weak := m.weak - {h});
    }

    /** The block's new counts; it is deleted when both are 0. */
    method PutBlock(b: Addr, k: Block)
      requires b in m.blocks
      modifies this
      ensures m == old(m).(blocks := BlockLeft(old(m).blocks, b, k), freed := FreedThen(old(m), b, k))
    {
      if k.weak == 0 && k.shared == 0 {
        m := m.(blocks := m.blocks - {b}, freed := m.freed + [b]);
      } else {
        m := m.(blocks := m.blocks[b := k]);
      }
    }

    /** ~shared_ptr. The deleter runs while this last pointer still counts, so that the object's pointer to itself
        cannot free the block. */
    method DestroyStrong(h: Handle, ghost busy: map<Addr, Handle>)
      requires Good(m, busy) && h in m.strong && !Member(m.members, h) && h !in busy.Values
      modifies this
      ensures Good(m, busy) && Spared(old(m), m, busy, h) && Swept(old(m), m) && h !in m.strong && h !in m.weak
      decreases m.strong.Keys - busy.Values, 1
    {
      NotBoth(m, busy);
      ReleasesSwept(m, h);
      PointsToBlock(m, busy);
      var b := m.strong[h];
      if b.Some? && m.blocks[b.value].shared == 1 {
        DestroyLast(h, b.value, busy);
      } else {
        if b.Some? { NotBusy(m, busy, b.value); }
        StrongReleasedGood(m, busy, h);
        ReleasesSpare(m, busy, h);
        Release(h);
      }
    }

    method DestroyLast(h: Handle, b: Addr, ghost busy: map<Addr, Handle>)
      requires Good(m, busy) && h in m.strong && !Member(m.members, h) && h !in busy.Values
      requires m.strong[h] == Some(b) && b in m.blocks && m.blocks[b].shared == 1
      modifies this
      ensures Good(m, busy) && Spared(old(m), m, busy, h) && Swept(old(m), m) && h !in m.strong
      decreases m.strong.Keys - busy.Values, 0
    {
      hide Good, Spared, Swept, Member, Kept;
      ghost var was := m;
      DestructorStarts(m, busy, h, b);
      assert busy[b := h] - {b} == busy;
      MoreBusy(busy, b, h);
      RunDeleter(b, busy[b := h]);
      NotAMember(was, m, busy, h);
      LastReleasedGood(m, busy[b := h], h, b);
      PointsToBlock(m, busy[b := h]);
      ReleasesSpare(m, busy, h);
      SparedTwice(was, m, StrongReleased(m, h), busy, h, h);
      ReleasesSwept(m, h);
      SweptTwice(was, m, StrongReleased(m, h));
      Release(h);
    }

    /** release_shared, and the end of the pointer. */
    method Release(h: Handle)
      requires h in m.strong && (m.strong[h].Some? ==> m.strong[h].value in m.blocks)
      modifies this
      ensures m == StrongReleased(old(m), h)
    {
      var b := m.strong[h];
      if b.Some? {
        PutBlock(b.value, Block(m.blocks[b.value].shared - 1, m.blocks[b.value].weak));
      }
      m := m.(strong := m.strong - {h});
    }

    /** The members of the object are destroyed, the last one first. */
    method RunDeleter(b: Addr, ghost busy: map<Addr, Handle>)
      requires Good(m, busy) && b in busy && b in m.members
      modifies this
      ensures Good(m, busy) && b !in m.members && b in old(m).members && SparedBut(old(m), m, busy, b)
      ensures Swept(old(m), m)
      decreases m.strong.Keys - busy.Values, 3
    {
      hide Good, Spared, Swept, Member, SparedBut;
      ghost var was := m;
      SparedItself(m, busy, busy[b]);
      SameMembersSwept(m, m);
      while m.members[b] != []
        invariant Good(m, busy) && b in m.members && Spared(was, m, busy, busy[b]) && m.strong.Keys <= was.strong.Keys
        invariant Swept(was, m)
        decreases |m.members[b]|
      {
        ghost var n := m;
        DestroyMember(b, busy);
        SparedTwice(was, n, m, busy, busy[b], busy[b]);
        SweptTwice(was, n, m);
      }
      ObjectGoneGood(m, busy, b);
      ObjectGoneSpares(was, m, busy, b);
      ObjectGoneSwept(m, b);
      SweptTwice(was, m, ObjectGone(m, b));
      m := m.(members := m.members - {b}, destroyed := m.destroyed + [b]);
    }

    method DestroyMember(b: Addr, ghost busy: map<Addr, Handle>)
      requires Good(m, busy) && b in busy && b in m.members && m.members[b] != []
      modifies this
      ensures Good(m, busy) && b in m.members && Spared(old(m), m, busy, busy[b]) && m.strong.Keys <= old(m).strong.Keys
      ensures b in old(m).members && |m.members[b]| < |old(m).members[b]| && Swept(old(m), m)
      decreases m.strong.Keys - busy.Values, 2
    {
      hide Good, Spared, Swept, Member;
      ghost var was := m;
      DetachedGood(m, busy, b);
      DetachedSpares(m, busy, b);
      var k := |m.members[b]| - 1;
      var x := m.members[b][k];
      m := m.(members := m.members[b := m.members[b][..k]]);
      ghost var n := m;
      if x in m.strong {
        DestroyStrong(x, busy);
      } else {
        DestroyWeak(x, busy);
      }
      StillThere(n, m, busy, b, x);
      DetachedSwept(was, b, m);
      SparedTwice(was, n, m, busy, busy[b], x);
    }

    // ----- what programs do with pointers -----

    ghost predicate Valid()
      reads this
    {
      Good(m, map[])
    }

    constructor ()
      ensures Valid() && m.strong == map[] && m.weak == map[] && m.made == {}
    {
      m := Mem(map[], map[], map[], map[], 0, {}, [], []);
    }

    method NewStrong() returns (h: Handle)
      requires Valid()
      modifies this
      ensures Valid() && h == old(m).next && m == NullStrong(old(m))
    {
      NullStrongGood(m);
      h := m.next;
      m := m.(strong := m.strong[h := None], next := m.next + 1);
    }

    method NewWeak() returns (h: Handle)
      requires Valid()
      modifies this
      ensures Valid() && h == old(m).next && m == NullWeak(old(m))
    {
      NullWeakGood(m);
      h := m.next;
      m := m.(weak := m.weak[h := None], next := m.next + 1);
    }

    method SwapStrong(g: Handle, h: Handle)
      requires Valid() && g in m.strong && h in m.strong
      modifies this
      ensures Valid() && m == old(m).(strong := Exchanged(old(m).strong, g, h))
    {
      ExchangedGood(m, g, h);
      m := m.(strong := m.strong[g := m.strong[h]][h := m.strong[g]]);
    }

    method SwapWeak(g: Handle, h: Handle)
      requires Valid() && g in m.weak && h in m.weak
      modifies this
      ensures Valid() && m == old(m).(weak := Exchanged(old(m).weak, g, h))
    {
      ExchangedGood(m, g, h);
      m := m.(weak := m.weak[g := m.weak[h]][h := m.weak[g]]);
    }

    /** The move constructor. */
    method MoveStrong(rv: Handle) returns (h: Handle)
      requires Valid() && rv in m.strong
      modifies this
      ensures Valid() && h == old(m).next && m.strong == old(m).strong[h := old(m).strong[rv]][rv := None]
      ensures m == NullStrong(old(m)).(strong := m.strong)
    {
      NextIsNew(m);
      hide Good, Exchanged;
      h := NewStrong();
      MovedByExchange(old(m).strong, h, rv);
      SwapStrong(h, rv);
    }

    /** A new weak_ptr to a block, or null: add_weak unless null. */
    method NewWeakTo(b: Option<Addr>) returns (h: Handle)
      requires Valid() && (b.Some? ==> b.value in m.blocks)
      modifies this
      ensures Valid() && h == old(m).next
      ensures m == if b.None? then NullWeak(old(m)) else PointedWeak(NullWeak(old(m)), h, b.value)
    {
      hide Good;
      h := NewWeak();
      if b.Some? {
        PointedWeakGood(m, h, b.value);
        var k := m.blocks[b.value];
        m := m.(weak := m.weak[h := b], blocks := m.blocks[b.value := Block(k.shared, k.weak + 1)]);
      }
    }

    /** A new shared_ptr to an object that has one, or null: add_shared unless null. */
    method NewStrongTo(b: Option<Addr>) returns (h: Handle)
      requires Valid() && (b.Some? ==> b.value in m.blocks && m.blocks[b.value].shared > 0)
      modifies this
      ensures Valid() && h == old(m).next
      ensures m == if b.None? then NullStrong(old(m)) else PointedStrong(NullStrong(old(m)), h, b.value)
    {
      hide Good;
      h := NewStrong();
      if b.Some? {
        PointedStrongGood(m, h, b.value);
        var k := m.blocks[b.value];
        m := m.(strong := m.strong[h := b], blocks := m.blocks[b.value := Block(k.shared + 1, k.weak)]);
      }
    }

    /** weak_ptr from a shared_ptr. */
    method WeakOf(s: Handle) returns (h: Handle)
      requires Valid() && s in m.strong
      modifies this
      ensures Valid() && h == old(m).next && AddedWeak(old(m), m, h, old(m).strong[s])
    {
      hide Good, Member;
      PointsToBlock(m, map[]);
      NextIsFree(m);
      h := NewWeakTo(m.strong[s]);
    }

    method CopyWeak(w: Handle) returns (h: Handle)
      requires Valid() && w in m.weak
      modifies this
      ensures Valid() && h == old(m).next && AddedWeak(old(m), m, h, old(m).weak[w])
    {
      hide Good, Member;
      PointsToBlock(m, map[]);
      NextIsFree(m);
      h := NewWeakTo(m.weak[w]);
    }

    /** Assignment, by a copy that changes places with the target. */
    method AssignWeak(dst: Handle, other: Handle)
      requires Valid() && dst in m.weak && other in m.weak
      modifies this
      ensures Valid() && m.weak == old(m).weak[dst := old(m).weak[other]]
      ensures m.strong == old(m).strong && m.members == old(m).members && m.made == old(m).made
    {
      NextIsNew(m);
      hide Good, Member, Exchanged, WeakReleased, Spared;
      var t := CopyWeak(other);
      SwapWeak(t, dst);
      CopyThenExchange(old(m).weak, t, dst, old(m).weak[other]);
      assert t in m.weak by { ExchangedKeys(old(m).weak[t := old(m).weak[other]], t, dst); }
      WeakReleasedFields(m, t);
      DestroyWeak(t, map[]);
    }

    /** lock: a shared_ptr to the object if it is still there, else null. */
    method Lock(w: Handle) returns (h: Handle)
      requires Valid() && w in m.weak
      modifies this
      ensures Valid() && h == old(m).next && m.weak == old(m).weak && m.destroyed == old(m).destroyed
      ensures m.freed == old(m).freed
      ensures var b := m.weak[w];
              m.strong == old(m).strong[h := if b.Some? && b.value !in m.destroyed then b else None]
    {
      hide Good, Member;
      PointsToBlock(m, map[]);
      ThereOrDestroyed(m);
      var b := m.weak[w];
      if b.None? || m.blocks[b.value].shared == 0 {
        h := NewStrongTo(None);
      } else {
        h := NewStrongTo(b);
      }
    }

    /** A cast that shares. */
    method Share(s: Handle) returns (h: Handle)
      requires Valid() && s in m.strong
      modifies this
      ensures Valid() && h == old(m).next && m.strong == old(m).strong[h := old(m).strong[s]] && m.weak == old(m).weak
      ensures m.destroyed == old(m).destroyed && m.freed == old(m).freed
    {
      hide Good, Member;
      PointsToBlock(m, map[]);
      ThereOrDestroyed(m);
      h := NewStrongTo(m.strong[s]);
    }

    /** The end of the temporary t, which has taken over what dst had. */
    method Drop(t: Handle, dst: Handle, ghost was: Mem)
      requires Valid() && Good(was, map[]) && t in m.strong && !Member(m.members, t) && t != dst && dst in was.strong
      requires m.members == was.members && m.weak == was.weak && m.made == was.made
      requires m.strong.Keys == was.strong.Keys + {t} && t !in was.strong
      requires forall g | g in m.strong && g != t && g != dst ::
                 m.strong[g] == None || (g in was.strong && m.strong[g] == was.strong[g])
      modifies this
      ensures Valid() && m.strong.Keys <= was.strong.Keys && m.weak.Keys <= was.weak.Keys && Swept(was, m)
      ensures LastTargetGone(was, m, dst, old(m).strong[dst])
      ensures forall g | g in was.strong && !Member(was.members, g) :: g in m.strong
      ensures forall g | g in m.strong :: g in old(m).strong && m.strong[g] == old(m).strong[g]
      ensures forall g | g in was.weak && !Member(was.members, g) :: g in m.weak && m.weak[g] == was.weak[g]
    {
      hide Good, Member, Spared, Swept, LastTargetGone;
      ghost var n := m;
      NotBoth(n, map[]);
      DestroyStrong(t, map[]);
      RootsStay(n, m, t);
      SweptSoFar(was, n, m, t);
      AllLastGone(was, n, m, dst, t);
    }

    /** Move assignment: a temporary takes what the target had, and destroys it if it was the last. */
    method AssignStrong(dst: Handle, rv: Handle)
      requires Valid() && dst in m.strong && rv in m.strong
      modifies this
      ensures Valid()
      ensures !Member(old(m).members, dst) ==> dst in m.strong
      ensures dst in m.strong ==> m.strong[dst] == old(m).strong[rv]
      ensures !Member(old(m).members, rv) && rv != dst ==> rv in m.strong && m.strong[rv] == None
      ensures forall g | g in old(m).strong && g != dst && g != rv && !Member(old(m).members, g) ::
                g in m.strong && m.strong[g] == old(m).strong[g]
      ensures forall g | g in old(m).weak && !Member(old(m).members, g) :: g in m.weak && m.weak[g] == old(m).weak[g]
      ensures m.strong.Keys <= old(m).strong.Keys && m.weak.Keys <= old(m).weak.Keys && Swept(old(m), m)
      ensures LastTargetGone(old(m), m, dst, old(m).strong[rv])
    {
      hide Good, Member, Swept, LastTargetGone;
      var t := MoveInto(dst, rv);
      Drop(t, dst, old(m));
    }

    /** A temporary made from rv changes places with dst. */
    method MoveInto(dst: Handle, rv: Handle) returns (t: Handle)
      requires Valid() && dst in m.strong && rv in m.strong
      modifies this
      ensures Valid() && t !in old(m).strong && !Member(m.members, t)
      ensures m == old(m).(strong := m.strong, next := m.next) && m.strong.Keys == old(m).strong.Keys + {t}
      ensures m.strong[dst] == old(m).strong[rv] && (rv != dst ==> m.strong[rv] == None)
      ensures forall g | g in old(m).strong && g != dst && g != rv :: m.strong[g] == old(m).strong[g]
    {
      NextIsNew(m);
      NextIsFree(m);
      hide Good, Member, Exchanged;
      t := MoveStrong(rv);
      SwapStrong(t, dst);
      MoveThenExchange(old(m).strong, t, dst, rv);
    }

    /** The temporary t took over what dst had, and has gone. */
    static lemma SweptSoFar(was: Mem, n: Mem, r: Mem, t: Handle)
      requires Spared(n, r, map[], t) && Swept(n, r) && t !in r.strong && n.strong.Keys == was.strong.Keys + {t}
      requires n.members == was.members && n.weak == was.weak
      ensures r.strong.Keys <= was.strong.Keys && r.weak.Keys <= was.weak.Keys && Swept(was, r)
    {
      hide Member;
    }

    /** What it took over was the last pointer to its object, if dst was. */
    static lemma AllLastGone(was: Mem, n: Mem, r: Mem, dst: Handle, t: Handle)
      requires Good(was, map[]) && Good(r, map[]) && Spared(n, r, map[], t) && t !in r.strong && n.made == was.made
      requires dst in was.strong && dst in n.strong
      requires forall g | g in n.strong && g != t && g != dst ::
                 n.strong[g] == None || (g in was.strong && n.strong[g] == was.strong[g])
      ensures LastTargetGone(was, r, dst, n.strong[dst])
    {
      forall b: Addr | n.strong[dst] != Some(b) && Holders(was.strong, b) == {dst}
        ensures b in r.destroyed && (Holders(r.weak, b) == {} ==> b in r.freed)
      {
        assert dst in Holders(was.strong, b);
        NoneHolds(was, n, r, dst, t, b);
        MadeIfHeld(was, dst, b);
        hide StrongExact, WeakExact, Owned, Kept, Numbered;
        Lifetimes(r);
      }
    }

    static lemma MadeIfHeld(m: Mem, h: Handle, b: Addr)
      requires Good(m, map[]) && h in m.strong && m.strong[h] == Some(b)
      ensures b in m.made
    {
    }

    static lemma NoneHolds(was: Mem, n: Mem, r: Mem, dst: Handle, t: Handle, b: Addr)
      requires Spared(n, r, map[], t) && t !in r.strong && Holders(was.strong, b) == {dst}
      requires dst in n.strong && n.strong[dst] != Some(b)
      requires forall g | g in n.strong && g != t && g != dst ::
                 n.strong[g] == None || (g in was.strong && n.strong[g] == was.strong[g])
      ensures Holders(r.strong, b) == {}
    {
      forall g | g in r.strong && r.strong[g] == Some(b) ensures g in Holders(was.strong, b) && g != dst {
        assert g in n.strong && n.strong[g] == Some(b) && g != t;
      }
    }

    method Reset(dst: Handle)
      requires Valid() && dst in m.strong
      modifies this
      ensures Valid()
      ensures !Member(old(m).members, dst) ==> dst in m.strong
      ensures dst in m.strong ==> m.strong[dst] == None
      ensures forall g | g in old(m).strong && g != dst && !Member(old(m).members, g) ::
                g in m.strong && m.strong[g] == old(m).strong[g]
      ensures forall g | g in old(m).weak && !Member(old(m).members, g) :: g in m.weak && m.weak[g] == old(m).weak[g]
      ensures m.strong.Keys <= old(m).strong.Keys && m.weak.Keys <= old(m).weak.Keys && Swept(old(m), m)
      ensures LastTargetGone(old(m), m, dst, None)
    {
      NextIsNew(m);
      NextIsFree(m);
      hide Good, Member, Exchanged, Spared, Swept, LastTargetGone;
      var t := NewStrong();
      SwapStrong(t, dst);
      ResetByExchange(old(m).strong, t, dst);
      Drop(t, dst, old(m));
    }

    /** A shared_ptr made from a new object with ms as its members. If one of them is its weak_this, enable_weak_this
        makes it point to the object, by way of two temporaries, and it is the only weak pointer left that does. */
    method MakeShared(ms: seq<Handle>, weakThis: Option<Handle>) returns (h: Handle)
      requires Valid() && Free(m, ms)
      requires weakThis.Some? ==> weakThis.value in m.weak && m.weak[weakThis.value].None?
      modifies this
      ensures Valid() && h in m.strong && m.strong[h].Some?
      ensures var b := m.strong[h].value;
              && b !in old(m).made && b in m.members && m.members[b] == ms && Holders(m.strong, b) == {h}
              && Holders(m.weak, b) == (if weakThis.Some? then {weakThis.value} else {})
              && m.strong == old(m).strong[h := Some(b)] && m.members == old(m).members[b := ms]
              && m.weak == if weakThis.Some? then old(m).weak[weakThis.value := Some(b)] else old(m).weak
    {
      hide Good, Member, Free;
      NextIsNew(m);
      StillFree(m, ms);
      h := NewStrong();
      NextIsNew(m);
      MadeObjectGood(m, h, ms);
      ghost var b := m.next;
      OnlyHolder(m, h, b);
      m := m.(blocks := m.blocks[m.next := Block(1, 0)], strong := m.strong[h := Some(m.next)],
              members := m.members[m.next := ms], made := m.made + {m.next}, next := m.next + 1);
      if weakThis.Some? {
        ghost var weak := m.weak;
        EnableWeakThis(h, weakThis.value);
        assert Holders(m.weak, b) == Holders(weak, b) + {weakThis.value};
      }
    }

    method EnableWeakThis(s: Handle, w: Handle)
      requires Valid() && s in m.strong && w in m.weak
      modifies this
      ensures Valid() && m.weak == old(m).weak[w := old(m).strong[s]] && m.strong == old(m).strong
      ensures m.members == old(m).members && m.made == old(m).made
    {
      hide Good, Member;
      hide WeakReleased, Spared;
      NextIsNew(m);
      var t := WeakOf(s);
      NextIsNew(m);
      var u := CopyWeak(t);
      AssignWeak(w, u);
      WeakReleasedFields(m, u);
      DestroyWeak(u, map[]);
      WeakReleasedFields(m, t);
      DestroyWeak(t, map[]);
      assert m.weak == old(m).weak[w := old(m).strong[s]];
    }
  }
}
