/** Credential lookups over the nested secret stores that an Ansible playbook
    loads from its vault: a per-host password store, a per-service credential
    store, and a multi-strategy password resolver built on the first.
    Every operation only reads its inputs; "not found" is a normal result. */
module VaultFilters {

  datatype Option<T> = None | Some(value: T)

  /** Python truthiness of an optional string: present and non-empty. */
  predicate Truthy(o: Option<string>) {
    o.Some? && o.value != ""
  }

  // ---------------------------------------------------------------------
  // get_vault_password
  // ---------------------------------------------------------------------

  /** host (IP address or name) -> user name -> password */
  type PasswordStore = map<string, map<string, string>>

  /** The store has an entry for `user` under `host`. */
  predicate Stored(s: PasswordStore, host: string, user: string) {
    host in s && user in s[host]
  }

  /** Looks up `s[host][user]`; only when that misses, and only when the
      fallback host is truthy, looks up `s[fallback][user]`. A stored empty
      password is returned as it is. */
  function GetVaultPassword(s: PasswordStore, host: string, user: string, fallback: Option<string>): (r: Option<string>)
    // the primary lookup always wins, whatever the fallback
    ensures Stored(s, host, user) ==> r == Some(s[host][user])
    // the fallback is consulted only after a primary miss
    ensures !Stored(s, host, user) && Truthy(fallback) && Stored(s, fallback.value, user) ==>
                r == Some(s[fallback.value][user])
    // a None or empty fallback is never consulted
    ensures !Truthy(fallback) && !Stored(s, host, user) ==> r.None?
    // not found exactly when neither lookup hits
    ensures r.None? <==> !Stored(s, host, user) && !(Truthy(fallback) && Stored(s, fallback.value, user))
  {
    if host in s && user in s[host] then
      Some(s[host][user])
    else if fallback.Some? && fallback.value != "" && fallback.value in s && user in s[fallback.value] then
      Some(s[fallback.value][user])
    else
      None
  }

  // ---------------------------------------------------------------------
  // get_service_credential
  // ---------------------------------------------------------------------

  /** A value under a service: a plain credential, or a nested mapping of
      credentials (a sub-service such as `smtp.gmail`). */
  datatype CredValue = Leaf(secret: string) | Group(creds: map<string, CredValue>)

  /** The entries of one service, in the dictionary's insertion order. */
  type ServiceEntry = seq<(string, CredValue)>

  /** service name -> its entries */
  type ServiceStore = map<string, ServiceEntry>

  /** The keys of a dictionary are distinct. */
  ghost predicate DistinctKeys(e: ServiceEntry) {
    forall i, j :: 0 <= i < j < |e| ==> e[i].0 != e[j].0
  }

  /** `k` is not a direct key of the entry. */
  ghost predicate NoKey(e: ServiceEntry, k: string) {
    forall i :: 0 <= i < |e| ==> e[i].0 != k
  }

  /** Position `i` is the first one whose key is `k`. */
  ghost predicate FirstKeyAt(e: ServiceEntry, k: string, i: int) {
    0 <= i < |e| && e[i].0 == k && forall j :: 0 <= j < i ==> e[j].0 != k
  }

  /** `k in d` followed by `d[k]` on the service's dictionary. */
  function DirectValue(e: ServiceEntry, k: string): (r: Option<CredValue>)
    ensures r.None? <==> NoKey(e, k)
    ensures forall i :: FirstKeyAt(e, k, i) ==> r == Some(e[i].1)
  {
    if |e| == 0 then None
    else if e[0].0 == k then Some(e[0].1)
    else
      var r := DirectValue(e[1..], k);
      assert forall i :: FirstKeyAt(e, k, i) ==> FirstKeyAt(e[1..], k, i - 1);
      r
  }

  /** The value is a mapping that contains `k` (the isinstance test and the
      membership test of the nested search). */
  predicate NestedHit(v: CredValue, k: string) {
    v.Group? && k in v.creds
  }

  /** No sub-entry is a mapping containing `k`. */
  ghost predicate NoNested(e: ServiceEntry, k: string) {
    forall i :: 0 <= i < |e| ==> !NestedHit(e[i].1, k)
  }

  /** Position `i` is the first sub-entry that is a mapping containing `k`. */
  ghost predicate FirstNestedAt(e: ServiceEntry, k: string, i: int) {
    0 <= i < |e| && NestedHit(e[i].1, k) && forall j :: 0 <= j < i ==> !NestedHit(e[j].1, k)
  }

  /** The loop over the service's sub-entries, in order, returning from the
      first mapping that contains `k`; other values are skipped. */
  function NestedValue(e: ServiceEntry, k: string): (r: Option<CredValue>)
    ensures r.None? <==> NoNested(e, k)
    ensures forall i :: FirstNestedAt(e, k, i) ==> r == Some(e[i].1.creds[k])
  {
    if |e| == 0 then None
    else if NestedHit(e[0].1, k) then Some(e[0].1.creds[k])
    else
      var r := NestedValue(e[1..], k);
      assert forall i :: FirstNestedAt(e, k, i) ==> FirstNestedAt(e[1..], k, i - 1);
      r
  }

  /** A direct key under the service is returned unchanged (leaf or group);
      otherwise the first nested mapping holding the key supplies it;
      an unknown service, or no match at all, gives None. */
  function GetServiceCredential(store: ServiceStore, service: string, kind: string): (r: Option<CredValue>)
    ensures service !in store ==> r.None?
    ensures service in store ==>
              forall i :: FirstKeyAt(store[service], kind, i) ==> r == Some(store[service][i].1)
    ensures service in store && NoKey(store[service], kind) ==>
              forall i :: FirstNestedAt(store[service], kind, i) ==> r == Some(store[service][i].1.creds[kind])
    ensures r.None? <==> service !in store || (NoKey(store[service], kind) && NoNested(store[service], kind))
  {
    if service !in store then None
    else
      var direct := DirectValue(store[service], kind);
      if direct.Some? then direct else NestedValue(store[service], kind)
  }

  /** With a dictionary's distinct keys, any position holding the key is the
      first one. */
  lemma DirectKeyIsFirst(e: ServiceEntry, k: string, i: int)
    requires DistinctKeys(e) && 0 <= i < |e| && e[i].0 == k
    ensures FirstKeyAt(e, k, i)
  {
  }

  /** A flat key beats every nested match: if the key is directly under the
      service, its value is the result, unchanged, whatever the nested
      groups hold. */
  lemma DirectKeyWins(store: ServiceStore, service: string, kind: string, i: int)
    requires service in store && DistinctKeys(store[service])
    requires 0 <= i < |store[service]| && store[service][i].0 == kind
    ensures GetServiceCredential(store, service, kind) == Some(store[service][i].1)
  {
  }

  /** If some sub-entry is a mapping containing `k`, a first one exists. */
  lemma {:induction false} FirstNestedExists(e: ServiceEntry, k: string, i: int)
    requires 0 <= i < |e| && NestedHit(e[i].1, k)
    ensures exists j :: FirstNestedAt(e, k, j)
    decreases i
  {
    if exists j :: 0 <= j < i && NestedHit(e[j].1, k) {
      var j :| 0 <= j < i && NestedHit(e[j].1, k);
      FirstNestedExists(e, k, j);
    } else {
      assert FirstNestedAt(e, k, i);
    }
  }

  /** Without a direct key, a nested match anywhere makes the result the
      value of the first nested match in insertion order. */
  lemma NestedMatchFound(store: ServiceStore, service: string, kind: string, i: int)
    requires service in store && NoKey(store[service], kind)
    requires 0 <= i < |store[service]| && NestedHit(store[service][i].1, kind)
    ensures exists j :: FirstNestedAt(store[service], kind, j)
                        && GetServiceCredential(store, service, kind) == Some(store[service][j].1.creds[kind])
  {
    FirstNestedExists(store[service], kind, i);
  }

  /** The sub-entries that are mappings, in their original order. */
  function GroupsOnly(e: ServiceEntry): (g: ServiceEntry)
    ensures forall i :: 0 <= i < |g| ==> g[i].1.Group? && g[i] in e
    ensures forall i :: 0 <= i < |e| && e[i].1.Group? ==> e[i] in g
    ensures |g| <= |e|
  {
    if |e| == 0 then []
    else if e[0].1.Group? then [e[0]] + GroupsOnly(e[1..])
    else GroupsOnly(e[1..])
  }

  /** Non-mapping sub-entries never influence the nested search. */
  lemma {:induction false} LeavesSkipped(e: ServiceEntry, k: string)
    ensures NestedValue(e, k) == NestedValue(GroupsOnly(e), k)
  {
    if |e| > 0 {
      LeavesSkipped(e[1..], k);
      if e[0].1.Group? {
        assert ([e[0]] + GroupsOnly(e[1..]))[1..] == GroupsOnly(e[1..]);
      }
    }
  }

  // ---------------------------------------------------------------------
  // safe_password_lookup
  // ---------------------------------------------------------------------

  /** The identity fields of a host; None means the key is absent. */
  datatype HostInfo = HostInfo(
    ansibleHost: Option<string>,
    inventoryHostname: Option<string>,
    hostname: Option<string>,
    ansibleUser: Option<string>)

  /** The vault: two optional password-store sections. */
  datatype VaultData = VaultData(
    vaultPasswords: Option<PasswordStore>,
    vaultPasswordsByHostname: Option<PasswordStore>)

  /** A section of the vault, or an empty store when the section is
      missing. */
  function SectionOrEmpty(o: Option<PasswordStore>): (s: PasswordStore)
    ensures o.Some? ==> s == o.value
    ensures o.None? ==> forall host, user :: !Stored(s, host, user)
  {
    if o.Some? then o.value else map[]
  }

  /** The user to look up: the explicit username when it is a non-empty
      string, else the host's ansible_user whenever that key is present,
      else "root". */
  function EffectiveUser(username: Option<string>, host: HostInfo): (u: string)
    ensures Truthy(username) ==> u == username.value
    ensures !Truthy(username) && host.ansibleUser.Some? ==> u == host.ansibleUser.value
    ensures !Truthy(username) && host.ansibleUser.None? ==> u == "root"
    // the user can only be empty when ansible_user is explicitly empty
    ensures u == "" <==> !Truthy(username) && host.ansibleUser == Some("")
  {
    if Truthy(username) then username.value
    else if host.ansibleUser.Some? then host.ansibleUser.value
    else "root"
  }

  /** The lookup strategies, in priority order: ansible_host, then
      inventory_hostname, then hostname. */
  function Candidates(host: HostInfo): (c: seq<Option<string>>)
    ensures |c| == 3
    ensures c[0] == host.ansibleHost && c[1] == host.inventoryHostname && c[2] == host.hostname
  {
    [host.ansibleHost, host.inventoryHostname, host.hostname]
  }

  /** Candidate `key` yields a usable password for `user` in `s`: the key is
      truthy and a non-empty password is stored under it. */
  predicate Hit(s: PasswordStore, key: Option<string>, user: string) {
    Truthy(key) && Stored(s, key.value, user) && s[key.value][user] != ""
  }

  ghost predicate HitAt(s: PasswordStore, cands: seq<Option<string>>, user: string, i: int) {
    0 <= i < |cands| && Hit(s, cands[i], user)
  }

  ghost predicate NoHit(s: PasswordStore, cands: seq<Option<string>>, user: string) {
    forall i :: 0 <= i < |cands| ==> !Hit(s, cands[i], user)
  }

  ghost predicate FirstHitAt(s: PasswordStore, cands: seq<Option<string>>, user: string, i: int) {
    HitAt(s, cands, user, i) && forall j :: 0 <= j < i ==> !Hit(s, cands[j], user)
  }

  /** One pass over the candidates against one store: skips falsy keys,
      asks get_vault_password with no fallback, and returns the first
      truthy password. */
  function SearchStore(s: PasswordStore, cands: seq<Option<string>>, user: string): (r: Option<string>)
    ensures r.None? <==> NoHit(s, cands, user)
    ensures forall i :: FirstHitAt(s, cands, user, i) ==> r == Some(s[cands[i].value][user])
    ensures r.Some? ==> r.value != ""
  {
    if |cands| == 0 then None
    else
      var rest := SearchStore(s, cands[1..], user);
      assert forall i :: FirstHitAt(s, cands, user, i) && i > 0 ==> FirstHitAt(s, cands[1..], user, i - 1);
      if Truthy(cands[0]) then
        var p := GetVaultPassword(s, cands[0].value, user, None);
        if Truthy(p) then p else rest
      else rest
  }

  /** If some candidate hits, a first one exists. */
  lemma {:induction false} FirstHitExists(s: PasswordStore, cands: seq<Option<string>>, user: string, i: int)
    requires HitAt(s, cands, user, i)
    ensures exists j :: FirstHitAt(s, cands, user, j)
    decreases i
  {
    if exists j :: 0 <= j < i && Hit(s, cands[j], user) {
      var j :| 0 <= j < i && Hit(s, cands[j], user);
      FirstHitExists(s, cands, user, j);
    } else {
      assert FirstHitAt(s, cands, user, i);
    }
  }

  /** Two passes over the same candidates: the address-keyed store first,
      then the hostname-keyed store; None when both miss. */
  function SafePasswordLookup(vault: VaultData, host: HostInfo, username: Option<string>): (r: Option<string>)
    ensures var s1, cands, u := SectionOrEmpty(vault.vaultPasswords), Candidates(host), EffectiveUser(username, host);
            forall i :: FirstHitAt(s1, cands, u, i) ==> r == Some(s1[cands[i].value][u])
    ensures var s1, s2, cands, u := SectionOrEmpty(vault.vaultPasswords), SectionOrEmpty(vault.vaultPasswordsByHostname),
                                    Candidates(host), EffectiveUser(username, host);
            NoHit(s1, cands, u) ==> forall i :: FirstHitAt(s2, cands, u, i) ==> r == Some(s2[cands[i].value][u])
    ensures var s1, s2, cands, u := SectionOrEmpty(vault.vaultPasswords), SectionOrEmpty(vault.vaultPasswordsByHostname),
                                    Candidates(host), EffectiveUser(username, host);
            r.None? <==> NoHit(s1, cands, u) && NoHit(s2, cands, u)
    ensures r.Some? ==> r.value != ""
  {
    var u := EffectiveUser(username, host);
    var cands := Candidates(host);
    var byAddress := SearchStore(SectionOrEmpty(vault.vaultPasswords), cands, u);
    if byAddress.Some? then byAddress
    else SearchStore(SectionOrEmpty(vault.vaultPasswordsByHostname), cands, u)
  }

  /** Within the address-keyed store, ansible_host beats inventory_hostname,
      which beats hostname. */
  lemma AddressIdentityOrder(vault: VaultData, host: HostInfo, username: Option<string>)
    ensures var s, u := SectionOrEmpty(vault.vaultPasswords), EffectiveUser(username, host);
            var r := SafePasswordLookup(vault, host, username);
            && (Hit(s, host.ansibleHost, u) ==> r == Some(s[host.ansibleHost.value][u]))
            && (!Hit(s, host.ansibleHost, u) && Hit(s, host.inventoryHostname, u) ==>
                    r == Some(s[host.inventoryHostname.value][u]))
            && (!Hit(s, host.ansibleHost, u) && !Hit(s, host.inventoryHostname, u) && Hit(s, host.hostname, u) ==>
                    r == Some(s[host.hostname.value][u]))
  {
  }

  /** When the address-keyed store has no hit, the hostname-keyed store is
      searched in the same identity order. */
  lemma HostnameIdentityOrder(vault: VaultData, host: HostInfo, username: Option<string>)
    requires NoHit(SectionOrEmpty(vault.vaultPasswords), Candidates(host), EffectiveUser(username, host))
    ensures var s, u := SectionOrEmpty(vault.vaultPasswordsByHostname), EffectiveUser(username, host);
            var r := SafePasswordLookup(vault, host, username);
            && (Hit(s, host.ansibleHost, u) ==> r == Some(s[host.ansibleHost.value][u]))
            && (!Hit(s, host.ansibleHost, u) && Hit(s, host.inventoryHostname, u) ==>
                    r == Some(s[host.inventoryHostname.value][u]))
            && (!Hit(s, host.ansibleHost, u) && !Hit(s, host.inventoryHostname, u) && Hit(s, host.hostname, u) ==>
                    r == Some(s[host.hostname.value][u]))
  {
  }

  /** Any hit in the address-keyed store, for any candidate, beats every hit
      in the hostname-keyed store: the latter can be replaced by anything
      without changing the result, and the result comes from the former. */
  lemma AddressStoreBeatsHostnameStore(vault: VaultData, host: HostInfo, username: Option<string>,
                                       other: Option<PasswordStore>, i: int)
    requires HitAt(SectionOrEmpty(vault.vaultPasswords), Candidates(host), EffectiveUser(username, host), i)
    ensures SafePasswordLookup(vault, host, username)
            == SafePasswordLookup(vault.(vaultPasswordsByHostname := other), host, username)
    ensures var s, cands, u := SectionOrEmpty(vault.vaultPasswords), Candidates(host), EffectiveUser(username, host);
            exists j :: FirstHitAt(s, cands, u, j) && SafePasswordLookup(vault, host, username) == Some(s[cands[j].value][u])
  {
  }

  /** A found password is non-empty and is stored, under a truthy candidate
      key and the effective user, in one of the two stores. */
  lemma ResultIsStored(vault: VaultData, host: HostInfo, username: Option<string>)
    ensures var r, u, cands := SafePasswordLookup(vault, host, username), EffectiveUser(username, host), Candidates(host);
            r.Some? ==>
              r.value != "" &&
              exists s, i :: s in {SectionOrEmpty(vault.vaultPasswords), SectionOrEmpty(vault.vaultPasswordsByHostname)}
                          && HitAt(s, cands, u, i) && r.value == s[cands[i].value][u]
  {
  }

  /** Missing sections count as empty stores: nothing is found, and nothing
      fails. */
  lemma MissingSectionsGiveNone(host: HostInfo, username: Option<string>)
    ensures SafePasswordLookup(VaultData(None, None), host, username).None?
  {
  }
}
