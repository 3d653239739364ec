# Vault credential lookups

A Dafny model of the Ansible filter plugin `vault_filters.py`, which
resolves passwords and service credentials from the nested secret stores
kept in an Ansible vault. The three filters are pure: they only read their
inputs and answer either a value or `None`.

- `GetVaultPassword` is `get_vault_password`: `store[host][user]`, and only
  on a miss, with a truthy fallback host, `store[fallback][user]`.
- `GetServiceCredential` is `get_service_credential`. It takes a direct key
  under the service first (`DirectValue`), returned unchanged whether it is
  a leaf or a group. Otherwise it takes the first sub-entry, in insertion
  order, that is a mapping holding the key (`NestedValue`).
- `SafePasswordLookup` is `safe_password_lookup`. It works out the
  effective user (`EffectiveUser`) and builds the candidates `ansible_host`,
  `inventory_hostname`, `hostname` (`Candidates`). It searches
  `vault_passwords` and then `vault_passwords_by_hostname` (`SearchStore`),
  returning the first truthy password.

Python values are modelled as follows. A string's truthiness is
`Truthy(o)`: present and non-empty. A missing dictionary key is a `None`
field of `HostInfo` or `VaultData`. A service's dictionary is an ordered
`seq<(string, CredValue)>`, which keeps insertion order. The `isinstance(creds, dict)`
test becomes the `Group` case of `CredValue`. A dictionary's keys are
distinct (`DistinctKeys`). Without that, the direct lookup takes the first
pair that carries the key.

The precedence rules are stated against definitions made independently
of the lookups. `Stored`, `Hit`, `FirstKeyAt`, `FirstNestedAt` and
`FirstHitAt` say what counts as a match and which match comes first. The
lemmas then prove that the functions pick exactly that match.

On these points the model follows the code as written:
- the explicit username is used only when it is truthy, so an empty string
  defers to `ansible_user`;
- `ansible_user` is used whenever the key is present, even when it is empty;
- the fallback host of `get_vault_password` is consulted only when truthy,
  not whenever it is given;
- a non-mapping value met in the nested search is skipped, not reported as
  an error.

## Model

| member | source | states |
|---|---|---|
| VaultFilters.GetVaultPassword | ansible/filter_plugins/vault_filters.py:7-30 | a primary hit `store[host][user]` is returned whatever the fallback; after a primary miss a truthy fallback with a hit supplies the value; a falsy fallback is never consulted; None exactly when neither lookup hits |
| VaultFilters.DirectValue | ansible/filter_plugins/vault_filters.py:46-47 | None exactly when the key is not a direct key of the service; otherwise the value at the first position carrying the key |
| VaultFilters.NestedValue | ansible/filter_plugins/vault_filters.py:49-52 | None exactly when no sub-entry is a mapping containing the key; otherwise the nested value of the first such sub-entry in insertion order |
| VaultFilters.GetServiceCredential | ansible/filter_plugins/vault_filters.py:33-54 | unknown service gives None; a direct key's value is returned unchanged; without one, the first nested mapping holding the key supplies it; None exactly when the service is unknown or neither kind of match exists |
| VaultFilters.DirectKeyIsFirst | ansible/filter_plugins/vault_filters.py:46-47 | with a dictionary's distinct keys, any position carrying the key is the first one |
| VaultFilters.DirectKeyWins | ansible/filter_plugins/vault_filters.py:45-47 | a direct key under a known service is the result, leaf or group, whatever the nested groups hold |
| VaultFilters.FirstNestedExists | ansible/filter_plugins/vault_filters.py:50-52 | if any sub-entry is a mapping holding the key, a first such sub-entry exists |
| VaultFilters.NestedMatchFound | ansible/filter_plugins/vault_filters.py:49-52 | without a direct key, a nested match anywhere makes the result the value of the first nested match |
| VaultFilters.GroupsOnly | ansible/filter_plugins/vault_filters.py:51 | keeps every sub-entry whose value is a mapping and nothing else |
| VaultFilters.LeavesSkipped | ansible/filter_plugins/vault_filters.py:51 | removing every non-mapping sub-entry leaves the nested search's result unchanged |
| VaultFilters.SectionOrEmpty | ansible/filter_plugins/vault_filters.py:72-73 | a present section is used as it is; a missing one is a store with no entry (its effect on the lookup is `MissingSectionsGiveNone`) |
| VaultFilters.Candidates | ansible/filter_plugins/vault_filters.py:76-83 | exactly three candidates, in the order `ansible_host`, `inventory_hostname`, `hostname` (the order's effect on the lookup is `AddressIdentityOrder`) |
| VaultFilters.EffectiveUser | ansible/filter_plugins/vault_filters.py:69 | a truthy username wins; else a present `ansible_user`, even if empty; else "root"; the result is empty only when `ansible_user` is explicitly empty |
| VaultFilters.SearchStore | ansible/filter_plugins/vault_filters.py:86-90 | one pass: None exactly when no truthy candidate has a non-empty password for the user; otherwise the password of the first candidate that has one; never an empty password |
| VaultFilters.FirstHitExists | ansible/filter_plugins/vault_filters.py:86-97 | if any candidate hits in a store, a first hitting candidate exists |
| VaultFilters.SafePasswordLookup | ansible/filter_plugins/vault_filters.py:57-99 | the first hit in `vault_passwords` is returned; only without any hit there, the first hit in `vault_passwords_by_hostname`; None exactly when both miss; a result is never empty |
| VaultFilters.AddressIdentityOrder | ansible/filter_plugins/vault_filters.py:76-90 | in `vault_passwords`, `ansible_host` beats `inventory_hostname`, which beats `hostname` |
| VaultFilters.HostnameIdentityOrder | ansible/filter_plugins/vault_filters.py:92-97 | when `vault_passwords` has no hit, `vault_passwords_by_hostname` is searched in the same identity order |
| VaultFilters.AddressStoreBeatsHostnameStore | ansible/filter_plugins/vault_filters.py:85-97 | any hit in `vault_passwords` makes the result independent of `vault_passwords_by_hostname` and equal to the first hit in `vault_passwords` |
| VaultFilters.ResultIsStored | ansible/filter_plugins/vault_filters.py:86-99 | a result is non-empty and is stored under a truthy candidate key and the effective user in one of the two stores |
| VaultFilters.MissingSectionsGiveNone | ansible/filter_plugins/vault_filters.py:72-73 | missing store sections default to empty stores and give None, for every host and user |
| VaultFiltersExamples.FlatKeyBeatsNestedExample | ansible/filter_plugins/vault_filters.py:45-47 | a flat `username` beats one nested in `gmail` |
| VaultFiltersExamples.FirstGroupWinsExample | ansible/filter_plugins/vault_filters.py:49-52 | a leaf is skipped and the first group holding the key wins over a later one |
| VaultFiltersExamples.AddressStoreExample | ansible/filter_plugins/vault_filters.py:69-90 | with the default user "root", an address-store hit beats a hostname-store hit |
| VaultFiltersExamples.EmptyPasswordSkippedExample | ansible/filter_plugins/vault_filters.py:69-90 | an empty explicit username defers to `ansible_user`; an empty stored password is passed over for the next candidate |

## Left out

- The `FilterModule.filters` registration (lines 102-110): Ansible plugin wiring, not lookup logic.
- Ansible itself: template evaluation, inventory resolution and the vault's encryption at rest are external to this file.
- Ill-typed Python inputs are not modelled. These include a key present with the value `None` (`ansible_user: None`, a `vault_passwords: None` section) and non-string passwords. They also include `in` applied to a non-dictionary service value, which is a substring test on a string.
- Python truthiness is modelled on strings only (`Truthy`); the values in the stores are strings or, for service credentials, `CredValue`.
