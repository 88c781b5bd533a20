/** Facts about command and credential assignment (passes 2 and 3) used by
    the builder and by the properties of the plan. */
module AssignmentLemmas {
  import opened Values
  import opened Merger
  import opened Plan

  lemma GatherSnoc(blocks: seq<Block>, i: nat, hostTags: set<string>, c: Column)
    requires i < |blocks|
    ensures Gather(blocks[..i + 1], hostTags, c) == Gather(blocks[..i], hostTags, c) + Pick(blocks[i], hostTags, c)
  {
    assert blocks[..i + 1][..i] == blocks[..i];
  }

  /** The error a pass stops with is the one at the first faulty block. */
  lemma FirstFaultAt(blocks: seq<Block>, pass: Pass, hostTagSets: set<set<string>>, i: nat)
    requires i < |blocks| && Fault(blocks[i], pass, hostTagSets).Some?
    requires CleanPrefix(blocks, i, pass, hostTagSets)
    ensures FirstFault(blocks, pass, hostTagSets) == Some(MissingKey(i, Fault(blocks[i], pass, hostTagSets).value))
  {
    CleanPrefixAll(blocks, i, pass, hostTagSets);
  }

  /** No block among the first `n` is faulty, stated block by block from
      the last one back. */
  ghost predicate CleanPrefix(blocks: seq<Block>, n: nat, pass: Pass, hostTagSets: set<set<string>>)
    requires n <= |blocks|
  {
    n == 0 || (CleanPrefix(blocks, n - 1, pass, hostTagSets) && Fault(blocks[n - 1], pass, hostTagSets).None?)
  }

  /** A pass with no faulty block does not stop. */
  lemma CleanPrefixNoFault(blocks: seq<Block>, pass: Pass, hostTagSets: set<set<string>>)
    requires CleanPrefix(blocks, |blocks|, pass, hostTagSets)
    ensures FirstFault(blocks, pass, hostTagSets).None?
  {
    CleanPrefixAll(blocks, |blocks|, pass, hostTagSets);
  }

  lemma {:induction false} CleanPrefixAll(blocks: seq<Block>, n: nat, pass: Pass, hostTagSets: set<set<string>>)
    requires n <= |blocks|
    ensures CleanPrefix(blocks, n, pass, hostTagSets) <==> forall j :: 0 <= j < n ==> Fault(blocks[j], pass, hostTagSets).None?
  {
    if n > 0 {
      CleanPrefixAll(blocks, n - 1, pass, hostTagSets);
    }
  }

  /** Appending in two steps is appending the concatenation. */
  lemma AppendCommandsTwice(v: Value, a: seq<string>, b: seq<string>)
    requires WellFormed(v)
    ensures AppendCommands(AppendCommands(v, a), b) == AppendCommands(v, a + b)
  {
    assert EntryCommands(v) + a + b == EntryCommands(v) + (a + b);
  }

  /** Appending nothing leaves the entry as it is. */
  lemma AppendNothing(v: Value)
    requires WellFormed(v)
    ensures AppendCommands(v, []) == v
  {
    assert EntryCommands(v) + [] == EntryCommands(v);
  }

  /** One more offer to a field is one more settling step. */
  lemma {:induction false} ResolveSnoc(offers: seq<string>, x: string)
    ensures Resolve(offers + [x]) == Settle(Resolve(offers), x)
  {
    if offers != [] {
      assert (offers + [x])[0] == offers[0];
      if offers[0] == Sentinel && |offers| > 1 {
        assert (offers + [x])[1..] == offers[1..] + [x];
        ResolveSnoc(offers[1..], x);
      }
    }
  }

  /** Merging `{username, password}` into an entry, the entry being the
      primary, settles each of the two fields on its own. */
  lemma CredentialStep(v: Value, user: Option<string>, pass: Option<string>, u: string, p: string)
    requires WellFormed(v) && NoCredentials(v)
    ensures Merge(WithCredentials(v, user, pass).d, map["username" := Str(u), "password" := Str(p)])
         == WithCredentials(v, Settle(user, u), Settle(pass, p)).d
  {
    var r := Merge(WithCredentials(v, user, pass).d, map["username" := Str(u), "password" := Str(p)]);
    var after := WithCredentials(v, Settle(user, u), Settle(pass, p)).d;
    CredentialFields(v, user, pass, u, p);
    OtherFields(v, user, pass, u, p);
    assert r.Keys == after.Keys;
    forall k | k in r
      ensures r[k] == after[k]
    {
      if k != "username" && k != "password" {
        assert k in v.d;
      }
    }
  }

  /** The two credential fields after the merge. */
  lemma CredentialFields(v: Value, user: Option<string>, pass: Option<string>, u: string, p: string)
    requires WellFormed(v) && NoCredentials(v)
    ensures var r := Merge(WithCredentials(v, user, pass).d, map["username" := Str(u), "password" := Str(p)]);
      && "username" in r && r["username"] == Str(Settle(user, u).value)
      && "password" in r && r["password"] == Str(Settle(pass, p).value)
      && WithCredentials(v, Settle(user, u), Settle(pass, p)).d["username"] == r["username"]
      && WithCredentials(v, Settle(user, u), Settle(pass, p)).d["password"] == r["password"]
  {
    var before := WithCredentials(v, user, pass).d;
    var creds := map["username" := Str(u), "password" := Str(p)];
    assert "username" != "password" by {
      assert "username"[0] != "password"[0];
    }
    assert creds["username"] == Str(u) && creds["password"] == Str(p);
    CredentialLookup(v, user, pass);
    CredentialLookup(v, Settle(user, u), Settle(pass, p));
    SettledField(before, creds, "username", user, u);
    SettledField(before, creds, "password", pass, p);
  }

  /** Every other field of the entry is untouched by the merge. */
  lemma OtherFields(v: Value, user: Option<string>, pass: Option<string>, u: string, p: string)
    requires WellFormed(v) && NoCredentials(v)
    ensures var r := Merge(WithCredentials(v, user, pass).d, map["username" := Str(u), "password" := Str(p)]);
      && r.Keys == v.d.Keys + {"username", "password"}
      && WithCredentials(v, Settle(user, u), Settle(pass, p)).d.Keys == v.d.Keys + {"username", "password"}
      && forall k :: k in v.d ==> r[k] == v.d[k] == WithCredentials(v, Settle(user, u), Settle(pass, p)).d[k]
  {
    var before := WithCredentials(v, user, pass).d;
    EntryFieldsKept(v, user, pass);
    EntryFieldsKept(v, Settle(user, u), Settle(pass, p));
    MergeKeepsOthers(before, v.d, u, p);
  }

  /** Adding credentials keeps the entry's own fields. */
  lemma EntryFieldsKept(v: Value, user: Option<string>, pass: Option<string>)
    requires NoCredentials(v)
    ensures var w := WithCredentials(v, user, pass).d;
      && v.d.Keys <= w.Keys <= v.d.Keys + {"username", "password"}
      && (user.Some? && pass.Some? ==> w.Keys == v.d.Keys + {"username", "password"})
      && forall k :: k in v.d ==> w[k] == v.d[k]
  {
  }

  /** A merge with `{username, password}` keeps every other key of the primary. */
  lemma MergeKeepsOthers(before: map<string, Value>, own: map<string, Value>, u: string, p: string)
    requires "username" !in own && "password" !in own
    requires own.Keys <= before.Keys <= own.Keys + {"username", "password"}
    requires forall k :: k in own ==> before[k] == own[k]
    ensures var r := Merge(before, map["username" := Str(u), "password" := Str(p)]);
      && r.Keys == own.Keys + {"username", "password"}
      && forall k :: k in own ==> r[k] == own[k]
  {
    var creds := map["username" := Str(u), "password" := Str(p)];
    assert creds.Keys == {"username", "password"};
    forall k | k in own
      ensures Merge(before, creds)[k] == own[k]
    {
      assert k !in creds;
    }
  }

  /** Where the two credential fields of an entry come from. */
  lemma CredentialLookup(v: Value, user: Option<string>, pass: Option<string>)
    requires NoCredentials(v)
    ensures var w := WithCredentials(v, user, pass).d;
      && ("username" in w <==> user.Some?)
      && ("password" in w <==> pass.Some?)
      && (user.Some? ==> w["username"] == Str(user.value))
      && (pass.Some? ==> w["password"] == Str(pass.value))
  {
    assert "username" != "password" by {
      assert "username"[0] != "password"[0];
    }
  }

  /** One credential field after the merge. */
  lemma SettledField(before: map<string, Value>, creds: map<string, Value>, k: string, current: Option<string>, offered: string)
    requires k in creds && creds[k] == Str(offered)
    requires current.None? ==> k !in before
    requires current.Some? ==> k in before && before[k] == Str(current.value)
    ensures Merge(before, creds)[k] == Str(Settle(current, offered).value)
  {
  }

  /** No credentials, no change. */
  lemma NoCredentialsAdded(v: Value)
    requires v.Dict?
    ensures WithCredentials(v, None, None) == v
  {
    assert v.d + map[] + map[] == v.d;
  }

  /** A block that does not give credentials to a host leaves its entry. */
  lemma CredentialBlockSkipped(v: Value, blocks: seq<Block>, i: nat)
    requires i < |blocks| && WellFormed(v)
    requires !(blocks[i].username.Some? && AppliesTo(blocks[i], EntryTags(v)))
    ensures WithBlockCredentials(v, blocks[..i + 1]) == WithBlockCredentials(v, blocks[..i])
  {
    var t := EntryTags(v);
    GatherSnoc(blocks, i, t, UsernameColumn);
    GatherSnoc(blocks, i, t, PasswordColumn);
    assert Gather(blocks[..i], t, UsernameColumn) + [] == Gather(blocks[..i], t, UsernameColumn);
    assert Gather(blocks[..i], t, PasswordColumn) + [] == Gather(blocks[..i], t, PasswordColumn);
  }

  /** A matching credential block is one more merge into the host entry. */
  lemma CredentialBlockApplied(v: Value, blocks: seq<Block>, i: nat)
    requires i < |blocks| && WellFormed(v) && NoCredentials(v)
    requires blocks[i].username.Some? && blocks[i].password.Some? && AppliesTo(blocks[i], EntryTags(v))
    ensures Dict(Merge(WithBlockCredentials(v, blocks[..i]).d,
                       map["username" := Str(blocks[i].username.value), "password" := Str(blocks[i].password.value)]))
         == WithBlockCredentials(v, blocks[..i + 1])
  {
    var t := EntryTags(v);
    var users := Gather(blocks[..i], t, UsernameColumn);
    var passes := Gather(blocks[..i], t, PasswordColumn);
    GatherSnoc(blocks, i, t, UsernameColumn);
    GatherSnoc(blocks, i, t, PasswordColumn);
    ResolveSnoc(users, blocks[i].username.value);
    ResolveSnoc(passes, blocks[i].password.value);
    CredentialStep(v, Resolve(users), Resolve(passes), blocks[i].username.value, blocks[i].password.value);
  }

  /** After one credential block has been merged into the matching hosts,
      every host entry reflects one more block. */
  lemma CredentialPassStep(plan: map<string, Value>, before: map<string, Value>, after: map<string, Value>, blocks: seq<Block>, i: nat)
    requires WellFormedPlan(plan) && forall h :: h in plan ==> NoCredentials(plan[h])
    requires i < |blocks|
    requires before.Keys == plan.Keys == after.Keys
    requires forall h :: h in plan ==> before[h] == WithBlockCredentials(plan[h], blocks[..i])
    requires WellFormedPlan(before)
    requires forall h :: h in plan ==>
      if blocks[i].username.Some? && AppliesTo(blocks[i], EntryTags(plan[h]))
      then blocks[i].password.Some? &&
           after[h] == Dict(Merge(before[h].d, map["username" := Str(blocks[i].username.value), "password" := Str(blocks[i].password.value)]))
      else after[h] == before[h]
    ensures forall h :: h in plan ==> after[h] == WithBlockCredentials(plan[h], blocks[..i + 1])
  {
    forall h | h in plan
      ensures after[h] == WithBlockCredentials(plan[h], blocks[..i + 1])
    {
      if blocks[i].username.Some? && AppliesTo(blocks[i], EntryTags(plan[h])) {
        CredentialBlockApplied(plan[h], blocks, i);
      } else {
        CredentialBlockSkipped(plan[h], blocks, i);
      }
    }
  }

  /** Pass 3 stops at block `i` when it is the first faulty one. */
  lemma CredentialPassStops(plan: map<string, Value>, blocks: seq<Block>, i: nat)
    requires WellFormedPlan(plan)
    requires i < |blocks| && Fault(blocks[i], CredentialPass, TagSetsOf(plan)).Some?
    requires CleanPrefix(blocks, i, CredentialPass, TagSetsOf(plan))
    ensures AfterCredentials(blocks, plan) == Err(MissingKey(i, Fault(blocks[i], CredentialPass, TagSetsOf(plan)).value))
  {
    FirstFaultAt(blocks, CredentialPass, TagSetsOf(plan), i);
  }

  /** A credential block whose password is missing is faulty exactly when it
      matches some host. */
  lemma PasswordFault(plan: map<string, Value>, b: Block)
    requires WellFormedPlan(plan)
    requires b.username.Some? && b.tags.Some? && b.password.None?
    ensures Fault(b, CredentialPass, TagSetsOf(plan)).Some?
        <==> exists h :: h in plan && Matches(TagSet(b.tags.value), EntryTags(plan[h]))
  {
    if exists h :: h in plan && Matches(TagSet(b.tags.value), EntryTags(plan[h])) {
      var h :| h in plan && Matches(TagSet(b.tags.value), EntryTags(plan[h]));
      assert EntryTags(plan[h]) in TagSetsOf(plan);
    }
  }

  /** Pass 2 keeps every host and its tags. */
  lemma CommandsKeepEntries(blocks: seq<Block>, plan: map<string, Value>)
    requires WellFormedPlan(plan) && AfterCommands(blocks, plan).Ok?
    ensures AfterCommands(blocks, plan).value.Keys == plan.Keys
    ensures forall h :: h in plan ==>
      && WellFormed(AfterCommands(blocks, plan).value[h])
      && EntryTags(AfterCommands(blocks, plan).value[h]) == EntryTags(plan[h])
  {
  }

  /** Pass 3 keeps every host, its tags and its commands. */
  lemma CredentialsKeepEntries(blocks: seq<Block>, plan: map<string, Value>)
    requires WellFormedPlan(plan) && AfterCredentials(blocks, plan).Ok?
    ensures AfterCredentials(blocks, plan).value.Keys == plan.Keys
    ensures forall h :: h in plan ==>
      && WellFormed(AfterCredentials(blocks, plan).value[h])
      && EntryTags(AfterCredentials(blocks, plan).value[h]) == EntryTags(plan[h])
      && EntryCommands(AfterCredentials(blocks, plan).value[h]) == EntryCommands(plan[h])
  {
  }

  /** One more block appends its contribution to a host's commands. */
  lemma CommandHostStep(v: Value, blocks: seq<Block>, i: nat)
    requires i < |blocks| && WellFormed(v)
    ensures WithBlockCommands(v, blocks[..i + 1])
      == AppendCommands(WithBlockCommands(v, blocks[..i]), Pick(blocks[i], EntryTags(v), CommandsColumn))
  {
    var t := EntryTags(v);
    GatherSnoc(blocks, i, t, CommandsColumn);
    AppendCommandsTwice(v, Gather(blocks[..i], t, CommandsColumn), Pick(blocks[i], t, CommandsColumn));
  }

  /** Pass 2 ran through every block without a fault. */
  lemma CommandPassDone(plan: map<string, Value>, acc: map<string, Value>, blocks: seq<Block>)
    requires WellFormedPlan(plan) && acc.Keys == plan.Keys
    requires CleanPrefix(blocks, |blocks|, CommandPass, {})
    requires forall h :: h in plan ==> acc[h] == WithBlockCommands(plan[h], blocks)
    ensures AfterCommands(blocks, plan) == Ok(acc)
  {
    CleanPrefixNoFault(blocks, CommandPass, {});
    CommandEntries(plan, acc, blocks);
  }

  lemma CommandEntries(plan: map<string, Value>, acc: map<string, Value>, blocks: seq<Block>)
    requires WellFormedPlan(plan) && acc.Keys == plan.Keys
    requires forall h :: h in plan ==> acc[h] == WithBlockCommands(plan[h], blocks)
    ensures acc == map h | h in plan :: WithBlockCommands(plan[h], blocks)
  {
    var a := map h | h in plan :: WithBlockCommands(plan[h], blocks);
    assert a.Keys == acc.Keys;
    SameEntries(acc, a);
  }

  /** Pass 3 ran through every block without a fault. */
  lemma CredentialPassDone(plan: map<string, Value>, acc: map<string, Value>, blocks: seq<Block>)
    requires WellFormedPlan(plan) && acc.Keys == plan.Keys
    requires CleanPrefix(blocks, |blocks|, CredentialPass, TagSetsOf(plan))
    requires forall h :: h in plan ==> acc[h] == WithBlockCredentials(plan[h], blocks)
    ensures AfterCredentials(blocks, plan) == Ok(acc)
  {
    CleanPrefixNoFault(blocks, CredentialPass, TagSetsOf(plan));
    CredentialEntries(plan, acc, blocks);
  }

  lemma CredentialEntries(plan: map<string, Value>, acc: map<string, Value>, blocks: seq<Block>)
    requires WellFormedPlan(plan) && acc.Keys == plan.Keys
    requires forall h :: h in plan ==> acc[h] == WithBlockCredentials(plan[h], blocks)
    ensures acc == map h | h in plan :: WithBlockCredentials(plan[h], blocks)
  {
    var a := map h | h in plan :: WithBlockCredentials(plan[h], blocks);
    assert a.Keys == acc.Keys;
    SameEntries(acc, a);
  }
}
