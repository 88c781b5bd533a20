/** The configuration blocks and the declarative meaning of the snapshot plan
    that `build_snapshot_job` assembles from them. */
module Plan {
  import opened Values

  /** A `host_db` list: each entry maps host names to their tag lists. */
  type HostDb = seq<map<string, seq<string>>>

  /** One top-level configuration block. The builder dispatches on which keys
      are present, so every key is optional and one block may take part in
      several passes. */
  datatype Block = Block(
    hostDb: Option<HostDb>,
    tags: Option<seq<string>>,
    snapshotCommands: Option<seq<string>>,
    username: Option<string>,
    password: Option<string>)

  /** The `KeyError` raised when a block lacks a key that is read: the index
      of the offending block and the missing key. */
  datatype ConfigError = MissingKey(block: nat, key: string)

  datatype Result<T> = Ok(value: T) | Err(error: ConfigError)

  /** Python's `set(tags)`. */
  function TagSet(tags: seq<string>): set<string> {
    set t | t in tags
  }

  /** A rule applies to a host when the rule's tags are a subset of the
      host's: every tag the rule names is one of the host's tags. */
  predicate Matches(ruleTags: set<string>, hostTags: set<string>) {
    ruleTags <= hostTags
  }

  // ---------------------------------------------------------------------
  // Pass 1: host discovery

  function DbOf(b: Block): HostDb {
    if b.hostDb.Some? then b.hostDb.value else []
  }

  /** Every `host_db` entry of the configuration, in declaration order. */
  function HostEntries(blocks: seq<Block>): HostDb {
    if blocks == [] then []
    else HostEntries(blocks[..|blocks| - 1]) + DbOf(blocks[|blocks| - 1])
  }

  /** The host names declared in a list of entries. */
  function DeclaredHosts(entries: HostDb): set<string> {
    if entries == [] then {} else entries[0].Keys + DeclaredHosts(entries[1..])
  }

  /** The tag set of the earliest declaration of `h`. */
  function FirstTags(entries: HostDb, h: string): set<string>
    requires h in DeclaredHosts(entries)
  {
    if h in entries[0] then TagSet(entries[0][h]) else FirstTags(entries[1..], h)
  }

  /** Each declared host with the tag set it ends pass 1 with. */
  function HostTags(entries: HostDb): (r: map<string, set<string>>)
    ensures r.Keys == DeclaredHosts(entries)
  {
    map h | h in DeclaredHosts(entries) :: FirstTags(entries, h)
  }

  /** The entry pass 1 creates for a host: its tags and no commands yet. */
  function NewEntry(tags: set<string>): Value {
    Dict(map["tags" := Tags(tags), "commands" := Cmds([])])
  }

  /** The plan after pass 1. */
  function Discovered(entries: HostDb): (r: map<string, Value>)
    ensures r.Keys == DeclaredHosts(entries)
  {
    var ht := HostTags(entries);
    map h | h in ht :: NewEntry(ht[h])
  }

  // ---------------------------------------------------------------------
  // Host entries

  /** A host entry as passes 2 and 3 read it: a mapping with a tag set under
      `tags` and a command list under `commands`. */
  predicate WellFormed(v: Value) {
    v.Dict? && "tags" in v.d && v.d["tags"].Tags? && "commands" in v.d && v.d["commands"].Cmds?
  }

  predicate WellFormedPlan(plan: map<string, Value>) {
    forall h :: h in plan ==> WellFormed(plan[h])
  }

  /** An entry that has not been given credentials yet. */
  predicate NoCredentials(v: Value) {
    v.Dict? && "username" !in v.d && "password" !in v.d
  }

  function EntryTags(v: Value): set<string>
    requires WellFormed(v)
  {
    v.d["tags"].t
  }

  function EntryCommands(v: Value): seq<string>
    requires WellFormed(v)
  {
    v.d["commands"].c
  }

  /** The entry with `cs` appended to its command list; nothing else changes. */
  function AppendCommands(v: Value, cs: seq<string>): (r: Value)
    requires WellFormed(v)
    ensures WellFormed(r) && r.d.Keys == v.d.Keys
    ensures EntryTags(r) == EntryTags(v) && EntryCommands(r) == EntryCommands(v) + cs
    ensures forall k :: k in v.d && k != "commands" ==> r.d[k] == v.d[k]
  {
    Dict(v.d["commands" := Cmds(EntryCommands(v) + cs)])
  }

  function CredentialMap(key: string, value: Option<string>): map<string, Value> {
    if value.Some? then map[key := Str(value.value)] else map[]
  }

  /** The entry with a `username` and a `password` key for each value given. */
  function WithCredentials(v: Value, user: Option<string>, pass: Option<string>): (r: Value)
    requires v.Dict?
    ensures r.Dict? && r.d.Keys == v.d.Keys + CredentialMap("username", user).Keys + CredentialMap("password", pass).Keys
    ensures forall k :: k in v.d && k != "username" && k != "password" ==> r.d[k] == v.d[k]
    ensures WellFormed(v) ==> WellFormed(r) && EntryTags(r) == EntryTags(v) && EntryCommands(r) == EntryCommands(v)
  {
    Dict(v.d + CredentialMap("username", user) + CredentialMap("password", pass))
  }

  /** A fully resolved host entry. */
  function HostPlan(tags: set<string>, commands: seq<string>, user: Option<string>, pass: Option<string>): Value {
    WithCredentials(AppendCommands(NewEntry(tags), commands), user, pass)
  }

  // ---------------------------------------------------------------------
  // Passes 2 and 3: what each block contributes to a host

  /** What a block contributes: its commands, its username, its password. */
  datatype Column = CommandsColumn | UsernameColumn | PasswordColumn

  /** A block with tags applies to a host whose tags include them. */
  predicate AppliesTo(b: Block, hostTags: set<string>) {
    b.tags.Some? && Matches(TagSet(b.tags.value), hostTags)
  }

  /** What one block contributes to a host with tags `hostTags`. A password
      is only read from a block that has a username. */
  function Pick(b: Block, hostTags: set<string>, c: Column): (r: seq<string>)
    ensures !AppliesTo(b, hostTags) ==> r == []
    ensures c == CommandsColumn && b.snapshotCommands.None? ==> r == []
    ensures c != CommandsColumn ==> |r| <= 1
    ensures c != CommandsColumn && r != [] ==> b.username.Some?
  {
    if !AppliesTo(b, hostTags) then []
    else match c
      case CommandsColumn => if b.snapshotCommands.Some? then b.snapshotCommands.value else []
      case UsernameColumn => if b.username.Some? then [b.username.value] else []
      case PasswordColumn => if b.username.Some? && b.password.Some? then [b.password.value] else []
  }

  /** The contributions of all blocks to one host, in declaration order. */
  function Gather(blocks: seq<Block>, hostTags: set<string>, c: Column): seq<string> {
    if blocks == [] then []
    else Gather(blocks[..|blocks| - 1], hostTags, c) + Pick(blocks[|blocks| - 1], hostTags, c)
  }

  /** One credential merge into a field: an absent field or one holding the
      placeholder takes the offered value; any other value stays. */
  function Settle(current: Option<string>, offered: string): (r: Option<string>)
    ensures r.Some? && (r == current || r == Some(offered))
    ensures current.Some? && current.value != Sentinel ==> r == current
    ensures r.value == Sentinel ==> offered == Sentinel
  {
    if current.None? || current.value == Sentinel then Some(offered) else current
  }

  /** The value a field ends with after a series of offers: the first one
      that is not the placeholder, the placeholder if all of them are, and
      nothing if there was no offer. */
  function Resolve(offers: seq<string>): (r: Option<string>)
    ensures r.None? <==> offers == []
    ensures r.Some? ==> r.value in offers
    ensures r.Some? && r.value == Sentinel ==> forall i :: 0 <= i < |offers| ==> offers[i] == Sentinel
  {
    if offers == [] then None
    else if offers[0] != Sentinel || |offers| == 1 then Some(offers[0])
    else
      var r := Resolve(offers[1..]);
      assert forall i :: 1 <= i < |offers| ==> offers[i] == offers[1..][i - 1];
      r
  }

  // ---------------------------------------------------------------------
  // Missing keys

  datatype Pass = CommandPass | CredentialPass

  /** The key that is missing when block `b` is processed by `pass`, if any.
      A command block always reads `tags`; a credential block always reads
      `tags`, and reads `password` only when it matches some host. */
  function Fault(b: Block, pass: Pass, hostTagSets: set<set<string>>): (r: Option<string>)
    ensures r.Some? ==> r == Some("tags") || r == Some("password")
    ensures r == Some("tags") <==>
      b.tags.None? && (if pass == CommandPass then b.snapshotCommands.Some? else b.username.Some?)
    ensures r == Some("password") <==>
      && pass == CredentialPass && b.username.Some? && b.tags.Some? && b.password.None?
      && exists t :: t in hostTagSets && Matches(TagSet(b.tags.value), t)
  {
    assert "tags" != "password" by {
      assert "tags"[0] != "password"[0];
    }
    match pass
    case CommandPass =>
      if b.snapshotCommands.Some? && b.tags.None? then Some("tags") else None
    case CredentialPass =>
      if b.username.None? then None
      else if b.tags.None? then Some("tags")
      else if b.password.None? && exists t :: t in hostTagSets && Matches(TagSet(b.tags.value), t) then Some("password")
      else None
  }

  /** The error a pass stops with: the earliest faulty block. */
  function FirstFault(blocks: seq<Block>, pass: Pass, hostTagSets: set<set<string>>): (r: Option<ConfigError>)
    ensures r.None? <==> forall i :: 0 <= i < |blocks| ==> Fault(blocks[i], pass, hostTagSets).None?
    ensures r.Some? ==>
      && r.value.block < |blocks|
      && Fault(blocks[r.value.block], pass, hostTagSets) == Some(r.value.key)
      && forall j :: 0 <= j < r.value.block ==> Fault(blocks[j], pass, hostTagSets).None?
  {
    if blocks == [] then None
    else if Fault(blocks[0], pass, hostTagSets).Some? then
      Some(MissingKey(0, Fault(blocks[0], pass, hostTagSets).value))
    else
      assert forall i :: 1 <= i < |blocks| ==> blocks[i] == blocks[1..][i - 1];
      match FirstFault(blocks[1..], pass, hostTagSets)
      case None => None
      case Some(e) => Some(MissingKey(e.block + 1, e.key))
  }

  // ---------------------------------------------------------------------
  // The passes and the whole plan, declaratively

  function TagSetsOf(plan: map<string, Value>): set<set<string>>
    requires WellFormedPlan(plan)
  {
    set h | h in plan :: EntryTags(plan[h])
  }

  /** A host entry after pass 2: the commands of every matching block
      appended in declaration order. */
  function WithBlockCommands(v: Value, blocks: seq<Block>): (r: Value)
    requires WellFormed(v)
    ensures WellFormed(r) && EntryTags(r) == EntryTags(v)
  {
    AppendCommands(v, Gather(blocks, EntryTags(v), CommandsColumn))
  }

  /** A host entry after pass 3: username and password resolved over the
      matching credential blocks in declaration order. */
  function WithBlockCredentials(v: Value, blocks: seq<Block>): (r: Value)
    requires WellFormed(v)
    ensures WellFormed(r) && EntryTags(r) == EntryTags(v) && EntryCommands(r) == EntryCommands(v)
  {
    WithCredentials(v,
      Resolve(Gather(blocks, EntryTags(v), UsernameColumn)),
      Resolve(Gather(blocks, EntryTags(v), PasswordColumn)))
  }

  /** The plan after pass 2, from the plan before it. */
  function AfterCommands(blocks: seq<Block>, plan: map<string, Value>): (r: Result<map<string, Value>>)
    requires WellFormedPlan(plan)
    ensures r.Ok? <==> forall i :: 0 <= i < |blocks| ==> Fault(blocks[i], CommandPass, {}).None?
    ensures r.Err? ==> r.error.block < |blocks| && Fault(blocks[r.error.block], CommandPass, {}) == Some("tags")
    ensures r.Ok? ==> r.value.Keys == plan.Keys
  {
    match FirstFault(blocks, CommandPass, {})
    case Some(e) => Err(e)
    case None => Ok(map h | h in plan :: WithBlockCommands(plan[h], blocks))
  }

  /** The plan after pass 3, from the plan before it. */
  function AfterCredentials(blocks: seq<Block>, plan: map<string, Value>): (r: Result<map<string, Value>>)
    requires WellFormedPlan(plan)
    ensures r.Ok? <==> forall i :: 0 <= i < |blocks| ==> Fault(blocks[i], CredentialPass, TagSetsOf(plan)).None?
    ensures r.Err? ==> r.error.block < |blocks| && blocks[r.error.block].username.Some?
    ensures r.Ok? ==> r.value.Keys == plan.Keys
  {
    match FirstFault(blocks, CredentialPass, TagSetsOf(plan))
    case Some(e) => Err(e)
    case None => Ok(map h | h in plan :: WithBlockCredentials(plan[h], blocks))
  }

  /** The resolved plan: every declared host with the tags of its first
      declaration, the commands of every command block it matches in
      declaration order, and the first settled username and password of
      the credential blocks it matches; or the first missing key. */
  function BuildPlan(blocks: seq<Block>): Result<map<string, Value>> {
    var hosts := HostTags(HostEntries(blocks));
    match FirstFault(blocks, CommandPass, {})
    case Some(e) => Err(e)
    case None =>
      match FirstFault(blocks, CredentialPass, hosts.Values)
      case Some(e) => Err(e)
      case None => Ok(ResolvedHosts(blocks, hosts))
  }

  /** Every host of `hosts` with its tags, the commands of the command
      blocks it matches and its resolved credentials. */
  function ResolvedHosts(blocks: seq<Block>, hosts: map<string, set<string>>): (r: map<string, Value>)
    ensures r.Keys == hosts.Keys
  {
    map h | h in hosts ::
      HostPlan(hosts[h],
        Gather(blocks, hosts[h], CommandsColumn),
        Resolve(Gather(blocks, hosts[h], UsernameColumn)),
        Resolve(Gather(blocks, hosts[h], PasswordColumn)))
  }

  /** Two maps with the same keys and the same value at each key are the
      same map. */
  lemma SameEntries<K, V>(a: map<K, V>, c: map<K, V>)
    requires a.Keys == c.Keys
    requires forall h :: h in a ==> a[h] == c[h]
    ensures a == c
  {
  }
}
