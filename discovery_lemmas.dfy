/** Facts about host discovery (pass 1) used by the builder and by the
    properties of the plan. */
module DiscoveryLemmas {
  import opened Values
  import opened Merger
  import opened Plan

  lemma HostEntriesSnoc(blocks: seq<Block>, i: nat)
    requires i < |blocks|
    ensures HostEntries(blocks[..i + 1]) == HostEntries(blocks[..i]) + DbOf(blocks[i])
  {
    assert blocks[..i + 1][..i] == blocks[..i];
  }

  lemma {:induction false} DeclaredAppend(e: HostDb, f: HostDb)
    ensures DeclaredHosts(e + f) == DeclaredHosts(e) + DeclaredHosts(f)
  {
    if e == [] {
      assert e + f == f;
    } else {
      assert (e + f)[1..] == e[1..] + f;
      DeclaredAppend(e[1..], f);
    }
  }

  /** The earliest declaration in `e + f` is the earliest in `e` when there
      is one there, and the earliest in `f` otherwise. */
  lemma {:induction false} FirstTagsAppend(e: HostDb, f: HostDb, h: string)
    requires h in DeclaredHosts(e) + DeclaredHosts(f)
    ensures DeclaredHosts(e + f) == DeclaredHosts(e) + DeclaredHosts(f)
    ensures FirstTags(e + f, h) == if h in DeclaredHosts(e) then FirstTags(e, h) else FirstTags(f, h)
  {
    DeclaredAppend(e, f);
    if e == [] {
      assert e + f == f;
    } else {
      assert (e + f)[0] == e[0];
      assert (e + f)[1..] == e[1..] + f;
      if h !in e[0] {
        FirstTagsAppend(e[1..], f, h);
      }
    }
  }

  /** A closed entry with nothing in it discovers nothing. */
  lemma DiscoveredEmptyEntry(e: HostDb)
    ensures Discovered(e + [map[]]) == Discovered(e)
  {
    DeclaredAppend(e, [map[]]);
    assert DeclaredHosts([map[]]) == {};
    forall h | h in DeclaredHosts(e)
      ensures FirstTags(e + [map[]], h) == FirstTags(e, h)
    {
      FirstTagsAppend(e, [map[]], h);
    }
  }

  /** Two fresh entries for one host merge to the first: the two tag sets
      are not mappings, so the primary's set wins. */
  lemma MergeNewEntries(t1: set<string>, t2: set<string>)
    ensures Merge(NewEntry(t1).d, NewEntry(t2).d) == NewEntry(t1).d
  {
    var r := Merge(NewEntry(t1).d, NewEntry(t2).d);
    assert r.Keys == NewEntry(t1).d.Keys;
    assert r["tags"] == Tags(t1);
    assert r["commands"] == Cmds([]);
  }

  /** Adding `host` to the last entry declares it, keeps the tags of every
      host declared before, and gives `host` these tags if it is new. */
  lemma ExtendLastEntry(e: HostDb, last: map<string, seq<string>>, host: string, tags: seq<string>, h: string)
    requires host !in last
    requires h in DeclaredHosts(e + [last]) || h == host
    ensures DeclaredHosts(e + [last[host := tags]]) == DeclaredHosts(e + [last]) + {host}
    ensures FirstTags(e + [last[host := tags]], h)
         == if h in DeclaredHosts(e + [last]) then FirstTags(e + [last], h) else TagSet(tags)
  {
    DeclaredAppend(e, [last]);
    DeclaredAppend(e, [last[host := tags]]);
    assert DeclaredHosts([last]) == last.Keys;
    assert DeclaredHosts([last[host := tags]]) == last.Keys + {host};
    FirstTagsAppend(e, [last[host := tags]], h);
    if h in DeclaredHosts(e + [last]) {
      FirstTagsAppend(e, [last], h);
    }
  }

  /** One step of pass 1: merging the new entry for `host` into the plan
      discovered so far gives the plan of the entry list with `host` added
      to its last entry. */
  lemma DiscoverStep(e: HostDb, last: map<string, seq<string>>, host: string, tags: seq<string>)
    requires host !in last
    ensures Merge(Discovered(e + [last]), map[host := NewEntry(TagSet(tags))])
         == Discovered(e + [last[host := tags]])
  {
    var d := Discovered(e + [last]);
    var d' := Discovered(e + [last[host := tags]]);
    ExtendLastEntry(e, last, host, tags, host);
    forall h | h in d
      ensures d'[h] == d[h]
    {
      ExtendLastEntry(e, last, host, tags, h);
    }
    var t0 := if host in d then FirstTags(e + [last], host) else TagSet(tags);
    assert host in d ==> d[host] == NewEntry(t0);
    MergeFreshHost(d, host, TagSet(tags), t0, d');
  }

  /** Merging a fresh entry for `host` into a plan adds `host` with that
      entry when it is new, and keeps the plan's entry when it is not. */
  lemma MergeFreshHost(d: map<string, Value>, host: string, tags: set<string>, t0: set<string>, d': map<string, Value>)
    requires d'.Keys == d.Keys + {host}
    requires forall h :: h in d ==> d'[h] == d[h]
    requires host in d ==> d[host] == NewEntry(t0)
    requires host !in d ==> d'[host] == NewEntry(tags)
    ensures Merge(d, map[host := NewEntry(tags)]) == d'
  {
    var m := map[host := NewEntry(tags)];
    var r := Merge(d, m);
    MergePolicy(d, m);
    forall h | h in d'
      ensures r[h] == d'[h]
    {
      if h != host {
        assert h !in m;
      } else if host in d {
        MergeNewEntries(t0, tags);
      }
    }
    SameEntries(r, d');
  }
}
