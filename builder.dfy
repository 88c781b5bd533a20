/** `build_snapshot_job` after the configuration has been parsed: three
    ordered passes over the blocks, updating one accumulating plan. */
module Builder {
  import opened Values
  import opened Merger
  import opened Plan
  import opened DiscoveryLemmas
  import opened AssignmentLemmas

  /** The plan for a parsed configuration: the three passes in order. A
      missing key in pass 2 or 3 ends the build with that error, as the
      `KeyError` it raises ends `build_snapshot_job`. */
  method BuildSnapshotJob(blocks: seq<Block>) returns (r: Result<map<string, Value>>)
    ensures r == BuildPlan(blocks)
  {
    var plan := DiscoverHosts(blocks);
    FreshEntries(HostEntries(blocks));
    var withCommands := AssignCommands(blocks, plan);
    if withCommands.Err? {
      return withCommands;
    }
    CommandsKeepCredentialsOut(blocks, plan);
    r := AssignCredentials(blocks, withCommands.value);
    PassesCompose(blocks);
  }

  /** Entries made by pass 1 are well formed and have no credentials. */
  lemma FreshEntries(entries: HostDb)
    ensures WellFormedPlan(Discovered(entries))
    ensures forall h :: h in Discovered(entries) ==> NoCredentials(Discovered(entries)[h])
  {
    assert "username" != "tags" && "username" != "commands" by {
      assert "username"[0] != "tags"[0] && "username"[0] != "commands"[0];
    }
    assert "password" != "tags" && "password" != "commands" by {
      assert "password"[0] != "tags"[0] && "password"[0] != "commands"[0];
    }
  }

  /** Pass 2 adds no credentials. */
  lemma CommandsKeepCredentialsOut(blocks: seq<Block>, plan: map<string, Value>)
    requires WellFormedPlan(plan) && forall h :: h in plan ==> NoCredentials(plan[h])
    requires AfterCommands(blocks, plan).Ok?
    ensures WellFormedPlan(AfterCommands(blocks, plan).value)
    ensures forall h :: h in AfterCommands(blocks, plan).value ==> NoCredentials(AfterCommands(blocks, plan).value[h])
  {
  }

  /** The three passes together give the declarative plan. */
  lemma PassesCompose(blocks: seq<Block>)
    ensures WellFormedPlan(Discovered(HostEntries(blocks)))
    ensures AfterCommands(blocks, Discovered(HostEntries(blocks))).Err? ==>
      BuildPlan(blocks) == AfterCommands(blocks, Discovered(HostEntries(blocks)))
    ensures AfterCommands(blocks, Discovered(HostEntries(blocks))).Ok? ==>
      && WellFormedPlan(AfterCommands(blocks, Discovered(HostEntries(blocks))).value)
      && BuildPlan(blocks) == AfterCredentials(blocks, AfterCommands(blocks, Discovered(HostEntries(blocks))).value)
  {
    var entries := HostEntries(blocks);
    FreshEntries(entries);
    if FirstFault(blocks, CommandPass, {}).None? {
      var hosts := HostTags(entries);
      var withCommands := CommandedHosts(blocks, hosts);
      CommandsAfterDiscovery(blocks, entries);
      CommandsKeepTags(blocks, hosts, withCommands);
      CredentialsComplete(blocks, hosts, withCommands);
    }
  }

  /** Every host of `hosts` after pass 2, from its fresh entry. */
  ghost function CommandedHosts(blocks: seq<Block>, hosts: map<string, set<string>>): (r: map<string, Value>)
    ensures r.Keys == hosts.Keys
  {
    map h | h in hosts :: WithBlockCommands(NewEntry(hosts[h]), blocks)
  }

  /** Pass 2 over the discovered hosts, when no command block is faulty. */
  lemma CommandsAfterDiscovery(blocks: seq<Block>, entries: HostDb)
    requires FirstFault(blocks, CommandPass, {}).None?
    requires WellFormedPlan(Discovered(entries))
    ensures AfterCommands(blocks, Discovered(entries)) == Ok(CommandedHosts(blocks, HostTags(entries)))
  {
    var plan := Discovered(entries);
    var hosts := HostTags(entries);
    var a := map h | h in plan :: WithBlockCommands(plan[h], blocks);
    var c := CommandedHosts(blocks, hosts);
    assert AfterCommands(blocks, plan) == Ok(a);
    assert a.Keys == plan.Keys == hosts.Keys == c.Keys;
    forall h | h in a
      ensures a[h] == c[h]
    {
      assert plan[h] == NewEntry(hosts[h]);
    }
    SameEntries(a, c);
  }

  /** Pass 3 over the plan after pass 2 resolves every host as the
      declarative plan does. */
  lemma CredentialsComplete(blocks: seq<Block>, hosts: map<string, set<string>>, withCommands: map<string, Value>)
    requires withCommands == CommandedHosts(blocks, hosts)
    requires WellFormedPlan(withCommands)
    requires TagSetsOf(withCommands) == hosts.Values
    ensures AfterCredentials(blocks, withCommands).Err? ==>
      AfterCredentials(blocks, withCommands).error == FirstFault(blocks, CredentialPass, hosts.Values).value
    ensures FirstFault(blocks, CredentialPass, hosts.Values).None? ==>
      AfterCredentials(blocks, withCommands) == Ok(ResolvedHosts(blocks, hosts))
  {
    if FirstFault(blocks, CredentialPass, hosts.Values).None? {
      var resolved := ResolvedHosts(blocks, hosts);
      var a := map h | h in withCommands :: WithBlockCredentials(withCommands[h], blocks);
      assert AfterCredentials(blocks, withCommands) == Ok(a);
      assert a.Keys == resolved.Keys;
      forall h | h in a
        ensures a[h] == resolved[h]
      {
        EntryResolved(blocks, hosts[h]);
      }
      SameEntries(a, resolved);
    }
  }

  /** One host through passes 2 and 3. */
  lemma EntryResolved(blocks: seq<Block>, tags: set<string>)
    ensures WithBlockCredentials(WithBlockCommands(NewEntry(tags), blocks), blocks)
         == HostPlan(tags,
              Gather(blocks, tags, CommandsColumn),
              Resolve(Gather(blocks, tags, UsernameColumn)),
              Resolve(Gather(blocks, tags, PasswordColumn)))
  {
    assert EntryTags(WithBlockCommands(NewEntry(tags), blocks)) == tags;
  }

  /** After pass 2 every host still has the tags pass 1 gave it. */
  lemma CommandsKeepTags(blocks: seq<Block>, hosts: map<string, set<string>>, withCommands: map<string, Value>)
    requires withCommands == CommandedHosts(blocks, hosts)
    ensures WellFormedPlan(withCommands)
    ensures forall h :: h in hosts ==> EntryTags(withCommands[h]) == hosts[h]
    ensures TagSetsOf(withCommands) == hosts.Values
  {
    forall t | t in hosts.Values
      ensures t in TagSetsOf(withCommands)
    {
      var h :| h in hosts && hosts[h] == t;
      assert EntryTags(withCommands[h]) == t;
    }
  }

  /** Pass 1: every `host_db` entry is merged into the plan as a host with
      its tags and an empty command list. */
  method DiscoverHosts(blocks: seq<Block>) returns (plan: map<string, Value>)
    ensures plan == Discovered(HostEntries(blocks))
  {
    plan := map[];
    for i := 0 to |blocks|
      invariant plan == Discovered(HostEntries(blocks[..i]))
    {
      HostEntriesSnoc(blocks, i);
      if blocks[i].hostDb.Some? {
        plan := MergeHostDb(plan, HostEntries(blocks[..i]), blocks[i].hostDb.value);
      } else {
        assert HostEntries(blocks[..i + 1]) == HostEntries(blocks[..i]);
      }
    }
    assert blocks[..|blocks|] == blocks;
  }

  /** Lines 63-70 for one block's `host_db`: its entries are merged in
      order. */
  method MergeHostDb(plan: map<string, Value>, ghost seen: HostDb, db: HostDb) returns (next: map<string, Value>)
    requires plan == Discovered(seen)
    ensures next == Discovered(seen + db)
  {
    next := plan;
    assert seen + db[..0] == seen;
    for j := 0 to |db|
      invariant next == Discovered(seen + db[..j])
    {
      next := MergeHostEntry(next, seen + db[..j], db[j]);
      assert seen + db[..j] + [db[j]] == seen + db[..j + 1];
    }
    assert db[..|db|] == db;
  }

  /** Lines 64-70 for one `host_db` entry: each of its hosts is merged into
      the plan as `{host: {tags, commands: []}}`, the plan being the primary. */
  method MergeHostEntry(plan: map<string, Value>, ghost seen: HostDb, entry: map<string, seq<string>>)
    returns (next: map<string, Value>)
    requires plan == Discovered(seen)
    ensures next == Discovered(seen + [entry])
  {
    next := plan;
    ghost var done: map<string, seq<string>> := map[];
    var remaining := entry.Keys;
    DiscoveredEmptyEntry(seen);
    while remaining != {}
      invariant remaining <= entry.Keys
      invariant done.Keys == entry.Keys - remaining
      invariant forall h :: h in done ==> done[h] == entry[h]
      invariant next == Discovered(seen + [done])
      decreases remaining
    {
      var host :| host in remaining;
      DiscoverStep(seen, done, host, entry[host]);
      next := MergeDict(next, map[host := NewEntry(TagSet(entry[host]))]);
      done := done[host := entry[host]];
      remaining := remaining - {host};
    }
    SameEntries(done, entry);
  }

  /** Pass 2: the commands of every block with `snapshot_commands` are
      appended, in block order, to every host whose tags include the
      block's tags. A command block without `tags` stops the pass with a
      missing-key error. */
  method AssignCommands(blocks: seq<Block>, plan: map<string, Value>) returns (r: Result<map<string, Value>>)
    requires WellFormedPlan(plan)
    ensures r == AfterCommands(blocks, plan)
  {
    var acc := plan;
    forall h | h in plan
      ensures WithBlockCommands(plan[h], blocks[..0]) == plan[h]
    {
      AppendNothing(plan[h]);
    }
    for i := 0 to |blocks|
      invariant CleanPrefix(blocks, i, CommandPass, {})
      invariant acc.Keys == plan.Keys
      invariant forall h :: h in acc ==> acc[h] == WithBlockCommands(plan[h], blocks[..i])
    {
      var missing;
      acc, missing := CommandBlockStep(plan, acc, blocks, i);
      if missing {
        FirstFaultAt(blocks, CommandPass, {}, i);
        return Err(MissingKey(i, "tags"));
      }
    }
    assert blocks[..|blocks|] == blocks;
    CommandPassDone(plan, acc, blocks);
    r := Ok(acc);
  }

  /** One iteration of pass 2: block `i` applied to a plan that holds the
      commands of the blocks before it; `missing` reports a command block
      without `tags`. */
  method CommandBlockStep(ghost plan: map<string, Value>, acc: map<string, Value>, blocks: seq<Block>, i: nat)
    returns (next: map<string, Value>, missing: bool)
    requires WellFormedPlan(plan)
    requires i < |blocks| && acc.Keys == plan.Keys
    requires forall h :: h in acc ==> acc[h] == WithBlockCommands(plan[h], blocks[..i])
    ensures missing <==> Fault(blocks[i], CommandPass, {}).Some?
    ensures !missing ==> next.Keys == plan.Keys
    ensures !missing ==> forall h :: h in next ==> next[h] == WithBlockCommands(plan[h], blocks[..i + 1])
  {
    var block := blocks[i];
    if block.snapshotCommands.None? {
      forall h | h in plan
        ensures acc[h] == WithBlockCommands(plan[h], blocks[..i + 1])
      {
        CommandHostStep(plan[h], blocks, i);
        AppendNothing(acc[h]);
      }
      return acc, false;
    }
    if block.tags.None? {
      return acc, true;
    }
    next := AppendToMatchingHosts(acc, TagSet(block.tags.value), block.snapshotCommands.value);
    missing := false;
    forall h | h in plan
      ensures next[h] == WithBlockCommands(plan[h], blocks[..i + 1])
    {
      CommandHostStep(plan[h], blocks, i);
      if !Matches(TagSet(block.tags.value), EntryTags(plan[h])) {
        AppendNothing(acc[h]);
      }
    }
  }

  /** Lines 75-79 for one command block: its commands are appended, one at
      a time, to the command list of every host it matches. */
  method AppendToMatchingHosts(plan: map<string, Value>, commandTags: set<string>, commands: seq<string>)
    returns (acc: map<string, Value>)
    requires WellFormedPlan(plan)
    ensures acc.Keys == plan.Keys
    ensures forall h :: h in plan ==>
      acc[h] == if Matches(commandTags, EntryTags(plan[h])) then AppendCommands(plan[h], commands) else plan[h]
  {
    acc := plan;
    var remaining := plan.Keys;
    while remaining != {}
      invariant remaining <= plan.Keys == acc.Keys
      invariant forall h :: h in remaining ==> acc[h] == plan[h]
      invariant forall h :: h in plan && h !in remaining ==>
        acc[h] == if Matches(commandTags, EntryTags(plan[h])) then AppendCommands(plan[h], commands) else plan[h]
      decreases remaining
    {
      var host :| host in remaining;
      var hostTags := EntryTags(acc[host]);
      if Matches(commandTags, hostTags) {
        AppendNothing(plan[host]);
        ghost var others := acc;
        for k := 0 to |commands|
          invariant acc.Keys == plan.Keys
          invariant acc[host] == AppendCommands(plan[host], commands[..k])
          invariant forall h :: h in acc && h != host ==> acc[h] == others[h]
        {
          AppendCommandsTwice(plan[host], commands[..k], [commands[k]]);
          assert commands[..k] + [commands[k]] == commands[..k + 1];
          acc := acc[host := AppendCommands(acc[host], [commands[k]])];
        }
        assert commands[..|commands|] == commands;
      }
      remaining := remaining - {host};
    }
  }

  /** Pass 3: `{username, password}` of every block with `username` is
      merged into every host whose tags include the block's tags, the host
      entry being the primary. A credential block without `tags`, or without
      `password` when it matches a host, stops the pass with a missing-key
      error. */
  method AssignCredentials(blocks: seq<Block>, plan: map<string, Value>) returns (r: Result<map<string, Value>>)
    requires WellFormedPlan(plan)
    requires forall h :: h in plan ==> NoCredentials(plan[h])
    ensures r == AfterCredentials(blocks, plan)
  {
    var acc := plan;
    forall h | h in plan
      ensures WithBlockCredentials(plan[h], blocks[..0]) == plan[h]
    {
      NoCredentialsAdded(plan[h]);
    }
    for i := 0 to |blocks|
      invariant CleanPrefix(blocks, i, CredentialPass, TagSetsOf(plan))
      invariant acc.Keys == plan.Keys
      invariant forall h :: h in acc ==> acc[h] == WithBlockCredentials(plan[h], blocks[..i])
    {
      var missing;
      acc, missing := CredentialBlockStep(plan, acc, blocks, i);
      if missing.Some? {
        return Err(MissingKey(i, missing.value));
      }
    }
    assert blocks[..|blocks|] == blocks;
    CredentialPassDone(plan, acc, blocks);
    r := Ok(acc);
  }

  /** One iteration of pass 3: block `i` merged into a plan that holds the
      credentials of the blocks before it. */
  method CredentialBlockStep(ghost plan: map<string, Value>, acc: map<string, Value>, blocks: seq<Block>, i: nat)
    returns (next: map<string, Value>, missing: Option<string>)
    requires WellFormedPlan(plan) && forall h :: h in plan ==> NoCredentials(plan[h])
    requires i < |blocks| && acc.Keys == plan.Keys
    requires forall h :: h in acc ==> acc[h] == WithBlockCredentials(plan[h], blocks[..i])
    requires CleanPrefix(blocks, i, CredentialPass, TagSetsOf(plan))
    ensures missing.Some? ==> AfterCredentials(blocks, plan) == Err(MissingKey(i, missing.value))
    ensures missing.None? ==> CleanPrefix(blocks, i + 1, CredentialPass, TagSetsOf(plan))
    ensures missing.None? ==> next.Keys == plan.Keys
    ensures missing.None? ==> forall h :: h in next ==> next[h] == WithBlockCredentials(plan[h], blocks[..i + 1])
  {
    next, missing := MergeCredentialBlock(plan, acc, blocks[i]);
    if missing.None? {
      CredentialPassStep(plan, acc, next, blocks, i);
    } else {
      CredentialPassStops(plan, blocks, i);
    }
  }

  /** Lines 82-90 for one block: when it has a `username`, its
      `{username, password}` is merged into the entry of every host it
      matches. `missing` is the key found missing, if any: `tags` is read
      first, `password` only once a host matches. `plan` is the plan before
      pass 3, which fixes every host's tags. */
  method MergeCredentialBlock(ghost plan: map<string, Value>, acc: map<string, Value>, block: Block)
    returns (next: map<string, Value>, missing: Option<string>)
    requires WellFormedPlan(plan) && WellFormedPlan(acc) && acc.Keys == plan.Keys
    requires forall h :: h in plan ==> EntryTags(acc[h]) == EntryTags(plan[h])
    ensures missing == Fault(block, CredentialPass, TagSetsOf(plan))
    ensures missing.None? ==> next.Keys == plan.Keys
    ensures missing.None? ==> forall h :: h in plan ==>
      if block.username.Some? && AppliesTo(block, EntryTags(plan[h]))
      then block.password.Some? &&
           next[h] == Dict(Merge(acc[h].d, map["username" := Str(block.username.value), "password" := Str(block.password.value)]))
      else next[h] == acc[h]
  {
    if block.username.None? {
      return acc, None;
    }
    if block.tags.None? {
      return acc, Some("tags");
    }
    var missingPassword;
    next, missingPassword := MergeIntoMatchingHosts(acc, TagSet(block.tags.value), block.username.value, block.password);
    if block.password.None? {
      PasswordFault(plan, block);
    }
    missing := if missingPassword then Some("password") else None;
  }

  /** Lines 84-90: `{username, password}` is merged into the entry of every
      host whose tags include `userTags`; `missing` reports that the
      password had to be read, at a matching host, and was not there. The
      source reads the password inside its host loop, so it fails at the
      first matching host; the plan is discarded on that error, so the model
      looks for a matching host first and merges only when the password is
      there. */
  method MergeIntoMatchingHosts(acc: map<string, Value>, userTags: set<string>, username: string, password: Option<string>)
    returns (next: map<string, Value>, missing: bool)
    requires WellFormedPlan(acc)
    ensures missing <==> password.None? && exists h :: h in acc && Matches(userTags, EntryTags(acc[h]))
    ensures !missing ==> next.Keys == acc.Keys
    ensures !missing ==> forall h :: h in acc ==>
      if Matches(userTags, EntryTags(acc[h]))
      then next[h] == Dict(Merge(acc[h].d, map["username" := Str(username), "password" := Str(password.value)]))
      else next[h] == acc[h]
  {
    if password.None? {
      missing := SomeHostMatches(acc, userTags);
      return acc, missing;
    }
    next := MergeCredentials(acc, userTags, map["username" := Str(username), "password" := Str(password.value)]);
    missing := false;
  }

  /** Whether some host's tags include `userTags`. */
  method SomeHostMatches(acc: map<string, Value>, userTags: set<string>) returns (found: bool)
    requires WellFormedPlan(acc)
    ensures found <==> exists h :: h in acc && Matches(userTags, EntryTags(acc[h]))
  {
    var remaining := acc.Keys;
    while remaining != {}
      invariant remaining <= acc.Keys
      invariant forall h :: h in acc && h !in remaining ==> !Matches(userTags, EntryTags(acc[h]))
      decreases remaining
    {
      var host :| host in remaining;
      if Matches(userTags, EntryTags(acc[host])) {
        return true;
      }
      remaining := remaining - {host};
    }
    found := false;
  }

  /** Lines 84-90 with the password present: `creds` is merged into the
      entry of every host whose tags include `userTags`, the entry being the
      primary. */
  method MergeCredentials(acc: map<string, Value>, userTags: set<string>, creds: map<string, Value>)
    returns (next: map<string, Value>)
    requires WellFormedPlan(acc)
    ensures next.Keys == acc.Keys
    ensures forall h :: h in acc ==>
      next[h] == if Matches(userTags, EntryTags(acc[h])) then Dict(Merge(acc[h].d, creds)) else acc[h]
  {
    next := acc;
    var remaining := acc.Keys;
    while remaining != {}
      invariant remaining <= acc.Keys == next.Keys
      invariant forall h :: h in acc ==>
        next[h] == if h !in remaining && Matches(userTags, EntryTags(acc[h])) then Dict(Merge(acc[h].d, creds)) else acc[h]
      decreases remaining
    {
      var host :| host in remaining;
      if Matches(userTags, EntryTags(next[host])) {
        next := MergeIntoHost(next, host, creds);
      }
      remaining := remaining - {host};
    }
  }

  /** Lines 88-90 for one host: the credentials are merged into its entry,
      the entry being the primary. */
  method MergeIntoHost(plan: map<string, Value>, host: string, creds: map<string, Value>) returns (next: map<string, Value>)
    requires host in plan && plan[host].Dict?
    ensures next.Keys == plan.Keys
    ensures next[host] == Dict(Merge(plan[host].d, creds))
    ensures forall h :: h in plan && h != host ==> next[h] == plan[h]
  {
    var merged := MergeDict(plan[host].d, creds);
    next := plan[host := Dict(merged)];
  }
}
