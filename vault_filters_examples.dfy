/** Concrete stores and hosts showing the precedence rules of the lookups. */
module VaultFiltersExamples {
  import opened VaultFilters

  /** A flat `username` under `smtp` wins over the one nested in `gmail`. */
  lemma FlatKeyBeatsNestedExample()
    ensures var store := map["smtp" := [("username", Leaf("flat")),
                                        ("gmail", Group(map["username" := Leaf("nested")]))]];
            GetServiceCredential(store, "smtp", "username") == Some(Leaf("flat"))
  {
  }

  /** Without a flat key the first group holding it answers; a leaf before
      it and a later group are ignored. */
  lemma FirstGroupWinsExample()
    ensures var store := map["smtp" := [("host", Leaf("mail.example.org")),
                                        ("gmail", Group(map["username" := Leaf("first")])),
                                        ("relay", Group(map["username" := Leaf("second")]))]];
            GetServiceCredential(store, "smtp", "username") == Some(Leaf("first"))
  {
  }

  /** An address-keyed hit beats a hostname-keyed one, with the default
      user "root". */
  lemma AddressStoreExample()
    ensures var vault := VaultData(Some(map["10.0.0.1" := map["root" := "p1"]]),
                                   Some(map["web1" := map["root" := "p2"]]));
            var host := HostInfo(Some("10.0.0.1"), None, Some("web1"), None);
            SafePasswordLookup(vault, host, None) == Some("p1")
  {
  }

  /** An empty stored password is skipped for the next candidate, and an
      empty explicit user name defers to ansible_user. */
  lemma EmptyPasswordSkippedExample()
    ensures var vault := VaultData(Some(map["10.0.0.1" := map["deploy" := ""],
                                            "web1" := map["deploy" := "p3"]]),
                                   None);
            var host := HostInfo(Some("10.0.0.1"), Some("web1"), None, Some("deploy"));
            SafePasswordLookup(vault, host, Some("")) == Some("p3")
  {
  }
}
