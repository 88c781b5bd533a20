/** What the resolved snapshot plan promises: which hosts it has, the tags
    and commands of each, how credentials are chosen, and when building it
    fails. Every lemma is about `BuildPlan`, which `BuildSnapshotJob`
    computes, or about the functions it is made of. */
module Properties {
  import opened Values
  import opened Plan
  import opened DiscoveryLemmas

  // ---------------------------------------------------------------------
  // Reading one host of the plan

  /** A resolved entry holds its tags and commands, and a `username` (a
      `password`) exactly when one was resolved. */
  lemma HostPlanFields(tags: set<string>, commands: seq<string>, user: Option<string>, pass: Option<string>)
    ensures var v := HostPlan(tags, commands, user, pass);
            && WellFormed(v)
            && EntryTags(v) == tags
            && EntryCommands(v) == commands
            && ("username" in v.d <==> user.Some?)
            && (user.Some? ==> v.d["username"] == Str(user.value))
            && ("password" in v.d <==> pass.Some?)
            && (pass.Some? ==> v.d["password"] == Str(pass.value))
  {
    assert "tags" != "username" && "commands" != "username" by {
      assert "tags"[0] != "username"[0] && "commands"[0] != "username"[0];
    }
    assert "tags" != "password" && "commands" != "password" by {
      assert "tags"[0] != "password"[0] && "commands"[0] != "password"[0];
    }
    assert "username" != "password" by {
      assert "username"[0] != "password"[0];
    }
  }

  /** A host of a successfully built plan: its tags are those of its first
      declaration, its commands are the commands of the command blocks it
      matches in block order, and it has a `username` (a `password`) exactly
      when some matching credential block offers one, holding the resolved
      value. */
  lemma PlanEntry(blocks: seq<Block>, h: string)
    requires BuildPlan(blocks).Ok? && h in BuildPlan(blocks).value
    ensures h in HostTags(HostEntries(blocks))
    ensures var t := HostTags(HostEntries(blocks))[h];
            var v := BuildPlan(blocks).value[h];
            var user := Resolve(Gather(blocks, t, UsernameColumn));
            var pass := Resolve(Gather(blocks, t, PasswordColumn));
            && WellFormed(v)
            && EntryTags(v) == t
            && EntryCommands(v) == Gather(blocks, t, CommandsColumn)
            && ("username" in v.d <==> user.Some?)
            && (user.Some? ==> v.d["username"] == Str(user.value))
            && ("password" in v.d <==> pass.Some?)
            && (pass.Some? ==> v.d["password"] == Str(pass.value))
  {
    var hosts := HostTags(HostEntries(blocks));
    var t := hosts[h];
    var user := Resolve(Gather(blocks, t, UsernameColumn));
    var pass := Resolve(Gather(blocks, t, PasswordColumn));
    assert BuildPlan(blocks).value == ResolvedHosts(blocks, hosts);
    assert BuildPlan(blocks).value[h] == HostPlan(t, Gather(blocks, t, CommandsColumn), user, pass);
    HostPlanFields(t, Gather(blocks, t, CommandsColumn), user, pass);
  }

  // ---------------------------------------------------------------------
  // Pass 1: which hosts, with which tags

  /** A host is declared by a list of entries exactly when some entry names it. */
  lemma {:induction false} DeclaredHostsSpec(entries: HostDb, h: string)
    ensures h in DeclaredHosts(entries) <==> exists i :: 0 <= i < |entries| && h in entries[i]
  {
    if entries != [] {
      DeclaredHostsSpec(entries[1..], h);
      if h in DeclaredHosts(entries[1..]) {
        var i :| 0 <= i < |entries[1..]| && h in entries[1..][i];
        assert h in entries[i + 1];
      }
      if exists i :: 0 <= i < |entries| && h in entries[i] {
        var i :| 0 <= i < |entries| && h in entries[i];
        if i > 0 {
          assert h in entries[1..][i - 1];
        }
      }
    }
  }

  /** The entries of the configuration are those of its blocks, in order. */
  lemma {:induction false} HostEntriesAppend(b1: seq<Block>, b2: seq<Block>)
    ensures HostEntries(b1 + b2) == HostEntries(b1) + HostEntries(b2)
  {
    if b2 == [] {
      assert b1 + b2 == b1;
    } else {
      var init := b2[..|b2| - 1];
      assert (b1 + b2)[..|b1 + b2| - 1] == b1 + init;
      HostEntriesAppend(b1, init);
    }
  }

  /** A host is declared by the configuration exactly when some block's
      `host_db` names it. */
  lemma {:induction false} DeclaredByBlocks(blocks: seq<Block>, h: string)
    ensures h in DeclaredHosts(HostEntries(blocks))
        <==> exists i :: 0 <= i < |blocks| && h in DeclaredHosts(DbOf(blocks[i]))
  {
    if blocks != [] {
      var n := |blocks| - 1;
      DeclaredAppend(HostEntries(blocks[..n]), DbOf(blocks[n]));
      DeclaredByBlocks(blocks[..n], h);
      assert blocks == blocks[..n] + [blocks[n]];
      DeclaredSomewhereSnoc(blocks[..n], blocks[n], h);
    }
  }

  /** Some block declares `h` exactly when some block before the last one
      does or the last one does. */
  lemma DeclaredSomewhereSnoc(init: seq<Block>, last: Block, h: string)
    ensures (exists i :: 0 <= i < |init + [last]| && h in DeclaredHosts(DbOf((init + [last])[i])))
        <==> (|| (exists i :: 0 <= i < |init| && h in DeclaredHosts(DbOf(init[i])))
              || h in DeclaredHosts(DbOf(last)))
  {
    var blocks := init + [last];
    if exists i :: 0 <= i < |init| && h in DeclaredHosts(DbOf(init[i])) {
      var i :| 0 <= i < |init| && h in DeclaredHosts(DbOf(init[i]));
      assert blocks[i] == init[i];
    }
    if h in DeclaredHosts(DbOf(last)) {
      assert blocks[|init|] == last;
    }
    if exists i :: 0 <= i < |blocks| && h in DeclaredHosts(DbOf(blocks[i])) {
      var i :| 0 <= i < |blocks| && h in DeclaredHosts(DbOf(blocks[i]));
      if i < |init| {
        assert blocks[i] == init[i];
      }
    }
  }

  /** The hosts of a built plan are exactly the hosts named in some
      `host_db`. */
  lemma PlanHosts(blocks: seq<Block>, h: string)
    requires BuildPlan(blocks).Ok?
    ensures h in BuildPlan(blocks).value
        <==> exists i :: 0 <= i < |blocks| && h in DeclaredHosts(DbOf(blocks[i]))
  {
    assert BuildPlan(blocks).value.Keys == DeclaredHosts(HostEntries(blocks));
    DeclaredByBlocks(blocks, h);
  }

  /** After pass 1 every host holds the tags of its first declaration and
      an empty command list. */
  lemma DiscoveredEntry(entries: HostDb, h: string)
    requires h in Discovered(entries)
    ensures h in DeclaredHosts(entries)
    ensures WellFormed(Discovered(entries)[h])
    ensures EntryTags(Discovered(entries)[h]) == FirstTags(entries, h)
    ensures EntryCommands(Discovered(entries)[h]) == []
  {
  }

  /** The tags of a host are those of the earliest entry naming it: later
      declarations do not add to them. */
  lemma {:induction false} FirstDeclarationWins(entries: HostDb, h: string, i: nat)
    requires i < |entries| && h in entries[i]
    requires forall j :: 0 <= j < i ==> h !in entries[j]
    ensures h in DeclaredHosts(entries)
    ensures FirstTags(entries, h) == TagSet(entries[i][h])
  {
    if i > 0 {
      assert forall j :: 0 <= j < i - 1 ==> entries[1..][j] == entries[j + 1];
      FirstDeclarationWins(entries[1..], h, i - 1);
    }
  }

  /** A host declared with tags `a` and then with tags `b` keeps `a`: the
      two tag sets are not united. */
  lemma DuplicateHostKeepsFirstTags()
    ensures var entries := [map["r1" := ["a"]], map["r1" := ["b"]]];
            && "r1" in HostTags(entries)
            && HostTags(entries)["r1"] == {"a"}
            && HostTags(entries)["r1"] != {"a", "b"}
  {
    var entries := [map["r1" := ["a"]], map["r1" := ["b"]]];
    FirstDeclarationWins(entries, "r1", 0);
    assert TagSet(["a"]) == {"a"} by {
      assert forall t :: t in TagSet(["a"]) <==> t == "a";
    }
    assert "b" !in {"a"};
  }

  // ---------------------------------------------------------------------
  // Pass 2: the commands of a host

  /** What a host gathers from a configuration is what it gathers from
      each part, in order. */
  lemma {:induction false} GatherAppend(b1: seq<Block>, b2: seq<Block>, hostTags: set<string>, c: Column)
    ensures Gather(b1 + b2, hostTags, c) == Gather(b1, hostTags, c) + Gather(b2, hostTags, c)
  {
    if b2 == [] {
      assert b1 + b2 == b1;
    } else {
      var init := b2[..|b2| - 1];
      assert (b1 + b2)[..|b1 + b2| - 1] == b1 + init;
      assert (b1 + b2)[|b1 + b2| - 1] == b2[|b2| - 1];
      GatherAppend(b1, init, hostTags, c);
    }
  }

  /** One block gathers its own contribution. */
  lemma GatherSingle(b: Block, hostTags: set<string>, c: Column)
    ensures Gather([b], hostTags, c) == Pick(b, hostTags, c)
  {
    assert [b][..0] == [];
  }

  /** Blocks that do not apply to a host give it nothing. */
  lemma {:induction false} GatherUnmatched(blocks: seq<Block>, hostTags: set<string>, c: Column)
    requires forall i :: 0 <= i < |blocks| ==> !AppliesTo(blocks[i], hostTags)
    ensures Gather(blocks, hostTags, c) == []
  {
    if blocks != [] {
      GatherUnmatched(blocks[..|blocks| - 1], hostTags, c);
    }
  }

  /** The commands of block `i` sit, whole and in their own order, between
      those of the blocks before it and those of the blocks after it, when
      the block applies to the host. */
  lemma CommandsInBlockOrder(blocks: seq<Block>, i: nat, hostTags: set<string>)
    requires i < |blocks| && blocks[i].snapshotCommands.Some? && AppliesTo(blocks[i], hostTags)
    ensures Gather(blocks, hostTags, CommandsColumn)
         == Gather(blocks[..i], hostTags, CommandsColumn)
          + blocks[i].snapshotCommands.value
          + Gather(blocks[i + 1..], hostTags, CommandsColumn)
  {
    assert blocks == blocks[..i] + [blocks[i]] + blocks[i + 1..];
    GatherAppend(blocks[..i] + [blocks[i]], blocks[i + 1..], hostTags, CommandsColumn);
    GatherAppend(blocks[..i], [blocks[i]], hostTags, CommandsColumn);
    GatherSingle(blocks[i], hostTags, CommandsColumn);
  }

  /** A block with an empty tag list applies to every host. */
  lemma EmptyTagsMatchAll(b: Block, hostTags: set<string>)
    requires b.tags == Some([])
    ensures AppliesTo(b, hostTags)
  {
    assert TagSet([]) == {};
  }

  /** A command block with an empty tag list gives its commands to every
      host of the plan. */
  lemma EmptyTagsCommandsEverywhere(blocks: seq<Block>, i: nat, h: string)
    requires i < |blocks| && blocks[i].tags == Some([]) && blocks[i].snapshotCommands.Some?
    requires BuildPlan(blocks).Ok? && h in BuildPlan(blocks).value
    ensures var t := HostTags(HostEntries(blocks))[h];
            (EntryCommands(BuildPlan(blocks).value[h])
             == Gather(blocks[..i], t, CommandsColumn)
              + blocks[i].snapshotCommands.value
              + Gather(blocks[i + 1..], t, CommandsColumn))
  {
    PlanEntry(blocks, h);
    var t := HostTags(HostEntries(blocks))[h];
    EmptyTagsMatchAll(blocks[i], t);
    CommandsInBlockOrder(blocks, i, t);
  }

  // ---------------------------------------------------------------------
  // Pass 3: the credentials of a host

  /** A field ends with the first offer that is not the placeholder. */
  lemma {:induction false} ResolveFirstSettled(offers: seq<string>, i: nat)
    requires i < |offers| && offers[i] != Sentinel
    requires forall j :: 0 <= j < i ==> offers[j] == Sentinel
    ensures Resolve(offers) == Some(offers[i])
  {
    if i > 0 {
      assert forall j :: 0 <= j < i - 1 ==> offers[1..][j] == offers[j + 1];
      ResolveFirstSettled(offers[1..], i - 1);
    }
  }

  /** The first credential block that applies to a host decides its
      username and password, unless it holds the placeholder: later
      matching blocks change nothing. */
  lemma FirstCredentialWins(blocks: seq<Block>, i: nat, hostTags: set<string>)
    requires i < |blocks| && blocks[i].username.Some? && AppliesTo(blocks[i], hostTags)
    requires forall j :: 0 <= j < i ==> !AppliesTo(blocks[j], hostTags) || blocks[j].username.None?
    ensures blocks[i].username.value != Sentinel ==>
      Resolve(Gather(blocks, hostTags, UsernameColumn)) == Some(blocks[i].username.value)
    ensures blocks[i].password.Some? && blocks[i].password.value != Sentinel ==>
      Resolve(Gather(blocks, hostTags, PasswordColumn)) == Some(blocks[i].password.value)
  {
    assert blocks == blocks[..i] + [blocks[i]] + blocks[i + 1..];
    GatherAppend(blocks[..i] + [blocks[i]], blocks[i + 1..], hostTags, UsernameColumn);
    GatherAppend(blocks[..i], [blocks[i]], hostTags, UsernameColumn);
    GatherAppend(blocks[..i] + [blocks[i]], blocks[i + 1..], hostTags, PasswordColumn);
    GatherAppend(blocks[..i], [blocks[i]], hostTags, PasswordColumn);
    GatherSingle(blocks[i], hostTags, UsernameColumn);
    GatherSingle(blocks[i], hostTags, PasswordColumn);
    NoEarlierCredentials(blocks[..i], hostTags);
    var users := Gather(blocks, hostTags, UsernameColumn);
    assert users == [blocks[i].username.value] + Gather(blocks[i + 1..], hostTags, UsernameColumn);
    if blocks[i].username.value != Sentinel {
      ResolveFirstSettled(users, 0);
    }
    if blocks[i].password.Some? && blocks[i].password.value != Sentinel {
      var passes := Gather(blocks, hostTags, PasswordColumn);
      assert passes == [blocks[i].password.value] + Gather(blocks[i + 1..], hostTags, PasswordColumn);
      ResolveFirstSettled(passes, 0);
    }
  }

  /** Blocks without a username or not applying to a host offer it no
      credentials. */
  lemma {:induction false} NoEarlierCredentials(blocks: seq<Block>, hostTags: set<string>)
    requires forall j :: 0 <= j < |blocks| ==> !AppliesTo(blocks[j], hostTags) || blocks[j].username.None?
    ensures Gather(blocks, hostTags, UsernameColumn) == []
    ensures Gather(blocks, hostTags, PasswordColumn) == []
  {
    if blocks != [] {
      NoEarlierCredentials(blocks[..|blocks| - 1], hostTags);
    }
  }

  /** A host that no credential block applies to gets neither a `username`
      nor a `password` key. */
  lemma NoMatchNoCredentials(blocks: seq<Block>, h: string)
    requires BuildPlan(blocks).Ok? && h in BuildPlan(blocks).value
    requires forall j :: 0 <= j < |blocks| ==>
      !AppliesTo(blocks[j], HostTags(HostEntries(blocks))[h]) || blocks[j].username.None?
    ensures "username" !in BuildPlan(blocks).value[h].d
    ensures "password" !in BuildPlan(blocks).value[h].d
  {
    PlanEntry(blocks, h);
    NoEarlierCredentials(blocks, HostTags(HostEntries(blocks))[h]);
  }

  // ---------------------------------------------------------------------
  // Blocks that change nothing

  /** Removing a block that is not faulty in a pass does not change whether
      the pass fails, nor the key it fails with; the index of the failing
      block shifts by one when it comes after the removed one. */
  lemma FirstFaultSkip(pre: seq<Block>, b: Block, post: seq<Block>, pass: Pass, s: set<set<string>>)
    requires Fault(b, pass, s).None?
    ensures FirstFault(pre + [b] + post, pass, s).None? <==> FirstFault(pre + post, pass, s).None?
    ensures FirstFault(pre + [b] + post, pass, s).Some? ==>
      && FirstFault(pre + [b] + post, pass, s).value.key == FirstFault(pre + post, pass, s).value.key
      && FirstFault(pre + [b] + post, pass, s).value.block
         == (var k := FirstFault(pre + post, pass, s).value.block; if k < |pre| then k else k + 1)
  {
    if FirstFault(pre + post, pass, s).Some? {
      FaultShifts(pre, b, post, pass, s);
    } else {
      NoFaultKept(pre, b, post, pass, s);
    }
  }

  /** A fault-free block inserted into a fault-free configuration keeps it
      fault free. */
  lemma NoFaultKept(pre: seq<Block>, b: Block, post: seq<Block>, pass: Pass, s: set<set<string>>)
    requires Fault(b, pass, s).None? && FirstFault(pre + post, pass, s).None?
    ensures FirstFault(pre + [b] + post, pass, s).None?
  {
    var w := pre + [b] + post;
    var o := pre + post;
    forall i | 0 <= i < |w|
      ensures Fault(w[i], pass, s).None?
    {
      if i < |pre| {
        assert w[i] == o[i];
      } else if i > |pre| {
        assert w[i] == o[i - 1];
      }
    }
  }

  /** The first fault of a configuration is still the first fault, with
      its index shifted past the inserted block, once a fault-free block is
      inserted. */
  lemma FaultShifts(pre: seq<Block>, b: Block, post: seq<Block>, pass: Pass, s: set<set<string>>)
    requires Fault(b, pass, s).None? && FirstFault(pre + post, pass, s).Some?
    ensures FirstFault(pre + [b] + post, pass, s).Some?
    ensures FirstFault(pre + [b] + post, pass, s).value.key == FirstFault(pre + post, pass, s).value.key
    ensures FirstFault(pre + [b] + post, pass, s).value.block
         == (var k := FirstFault(pre + post, pass, s).value.block; if k < |pre| then k else k + 1)
  {
    var w := pre + [b] + post;
    var o := pre + post;
    var k := FirstFault(o, pass, s).value.block;
    var up := if k < |pre| then k else k + 1;
    assert w[up] == o[k];
    var m := FirstFault(w, pass, s).value.block;
    assert w[|pre|] == b;
    var down := if m < |pre| then m else m - 1;
    assert w[m] == o[down];
  }

  /** A block with tags and no `host_db` that applies to no host can be
      removed: the build succeeds with it exactly when it succeeds without
      it, to the same plan, and fails with the same missing key otherwise. */
  lemma UnmatchedBlockChangesNothing(pre: seq<Block>, b: Block, post: seq<Block>)
    requires b.hostDb.None? && b.tags.Some?
    requires forall h :: h in HostTags(HostEntries(pre + post)) ==>
      !Matches(TagSet(b.tags.value), HostTags(HostEntries(pre + post))[h])
    ensures BuildPlan(pre + [b] + post).Ok? <==> BuildPlan(pre + post).Ok?
    ensures BuildPlan(pre + [b] + post).Ok? ==> BuildPlan(pre + [b] + post) == BuildPlan(pre + post)
    ensures BuildPlan(pre + [b] + post).Err? ==>
      BuildPlan(pre + [b] + post).error.key == BuildPlan(pre + post).error.key
  {
    var with := pre + [b] + post;
    var without := pre + post;
    HostEntriesAppend(pre + [b], post);
    HostEntriesAppend(pre, [b]);
    HostEntriesAppend(pre, post);
    assert HostEntries([b]) == [] by {
      assert [b][..0] == [];
    }
    assert HostEntries(pre) + [] == HostEntries(pre);
    var hosts := HostTags(HostEntries(without));
    assert HostTags(HostEntries(with)) == hosts;
    assert Fault(b, CredentialPass, hosts.Values).None? by {
      forall t | t in hosts.Values
        ensures !Matches(TagSet(b.tags.value), t)
      {
        var h :| h in hosts && hosts[h] == t;
      }
    }
    FirstFaultSkip(pre, b, post, CommandPass, {});
    FirstFaultSkip(pre, b, post, CredentialPass, hosts.Values);
    if BuildPlan(with).Ok? {
      forall h, c | h in hosts
        ensures Gather(with, hosts[h], c) == Gather(without, hosts[h], c)
      {
        GatherAppend(pre + [b], post, hosts[h], c);
        GatherAppend(pre, [b], hosts[h], c);
        GatherAppend(pre, post, hosts[h], c);
        GatherSingle(b, hosts[h], c);
        assert Gather(pre, hosts[h], c) + [] == Gather(pre, hosts[h], c);
      }
      SameEntries(ResolvedHosts(with, hosts), ResolvedHosts(without, hosts));
    }
  }

  // ---------------------------------------------------------------------
  // Failures

  /** A command block without `tags` makes the build fail, at that block
      or at an earlier faulty one. */
  lemma CommandBlockNeedsTags(blocks: seq<Block>, i: nat)
    requires i < |blocks| && blocks[i].snapshotCommands.Some? && blocks[i].tags.None?
    ensures BuildPlan(blocks).Err?
    ensures BuildPlan(blocks).error.block <= i
    ensures BuildPlan(blocks).error.block == i ==> BuildPlan(blocks).error.key == "tags"
  {
    assert Fault(blocks[i], CommandPass, {}).Some?;
  }

  /** A credential block without `password` that applies to some host
      makes the build fail. */
  lemma CredentialBlockNeedsPassword(blocks: seq<Block>, i: nat, h: string)
    requires i < |blocks| && blocks[i].username.Some? && blocks[i].password.None?
    requires h in HostTags(HostEntries(blocks)) && AppliesTo(blocks[i], HostTags(HostEntries(blocks))[h])
    ensures BuildPlan(blocks).Err?
  {
    var hosts := HostTags(HostEntries(blocks));
    assert hosts[h] in hosts.Values;
    assert Fault(blocks[i], CredentialPass, hosts.Values).Some?;
  }

  /** A block with tags that applies to no host is never the block the
      build fails at, whatever it lacks (a `password`, say); the build may
      still fail at another block. */
  lemma UnmatchedBlockNeverFails(blocks: seq<Block>, i: nat)
    requires i < |blocks| && blocks[i].tags.Some?
    requires forall h :: h in HostTags(HostEntries(blocks)) ==>
      !AppliesTo(blocks[i], HostTags(HostEntries(blocks))[h])
    ensures BuildPlan(blocks).Err? ==> BuildPlan(blocks).error.block != i
  {
    var hosts := HostTags(HostEntries(blocks));
    assert Fault(blocks[i], CredentialPass, hosts.Values).None? by {
      forall t | t in hosts.Values
        ensures !Matches(TagSet(blocks[i].tags.value), t)
      {
        var h :| h in hosts && hosts[h] == t;
      }
    }
  }

  /** The build fails exactly when some block is faulty in pass 2 or in
      pass 3, and then at a faulty block. A faulty command block wins over
      any faulty credential block, even an earlier one, because pass 2 runs
      to completion first. */
  lemma BuildOutcome(blocks: seq<Block>)
    ensures var s := HostTags(HostEntries(blocks)).Values;
      BuildPlan(blocks).Ok? <==> forall i :: 0 <= i < |blocks| ==>
        Fault(blocks[i], CommandPass, {}).None? && Fault(blocks[i], CredentialPass, s).None?
    ensures var s := HostTags(HostEntries(blocks)).Values;
      BuildPlan(blocks).Err? ==>
        && BuildPlan(blocks).error.block < |blocks|
        && var b := blocks[BuildPlan(blocks).error.block];
           Fault(b, CommandPass, {}) == Some(BuildPlan(blocks).error.key)
           || Fault(b, CredentialPass, s) == Some(BuildPlan(blocks).error.key)
    ensures (exists i :: 0 <= i < |blocks| && Fault(blocks[i], CommandPass, {}).Some?) ==>
      && BuildPlan(blocks).Err?
      && BuildPlan(blocks).error.block < |blocks|
      && Fault(blocks[BuildPlan(blocks).error.block], CommandPass, {}) == Some("tags")
  {
  }

  /** Python's `issubset`: a rule matches a host exactly when every tag
      the rule names is one of the host's tags. */
  lemma MatchesSubset(ruleTags: set<string>, hostTags: set<string>)
    ensures Matches(ruleTags, hostTags) <==> forall t :: t in ruleTags ==> t in hostTags
  {
  }

  /** The entry pass 1 creates for a host: a mapping with exactly `tags`,
      holding its tag set, and an empty `commands` list. */
  lemma FreshEntryShape(tags: set<string>)
    ensures WellFormed(NewEntry(tags)) && NoCredentials(NewEntry(tags))
    ensures NewEntry(tags).d.Keys == {"tags", "commands"}
    ensures EntryTags(NewEntry(tags)) == tags && EntryCommands(NewEntry(tags)) == []
  {
  }
}
