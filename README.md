# Trusted-certificate registry of the Vault auth plugin

This project models the trusted-certificate registry of a Vault auth plugin
(`cf-vault-auth-plugin/path_certs.go`) in Dafny. It also proves the
registry's validation and storage rules.

An administrator registers a certificate under a name. The entry also
carries a display name, a policy list, a `ttl` and a `max_ttl`. The plugin
stores the entry under the key `"cert/" + lower(name)`. The model covers:

- **Write** (`pathCertWrite`). `Certs.Backend.Write` is an imperative method
  on a class that holds the store. It lowercases the name and collects
  advisory warnings as it goes. It rejects a negative `ttl` or `max_ttl`, a
  `ttl` above a nonzero `max_ttl`, a certificate that parses to nothing, and
  a non-CA leaf whose extended-key-usage list lacks client authentication.
  On success it stores the entry. `Certs.HasClientAuth` is the
  extended-key-usage scan loop, with its early exit. The method is proved
  equal to a reference definition: `Rejection`, `Advisories`, `NewEntry`,
  `WriteResponse` and `StoreAfterWrite`. The lemmas below are stated about
  that reference definition.
- **Read** (`Cert`, `pathCertRead`), **Delete** (`pathCertDelete`) and
  **List** (`pathCertList`). Read and List are pure functions over the store
  map. Delete is a method on the class, specified by the function `Deleted`.
- **Names**, through `strings.ToLower` (module `Text`).
- **Warning text**, through `fmt.Sprintf`'s `%d` (module `Text`).

The store maps keys to values of type `Stored`. A value is either a
decodable entry or a blob that `DecodeJSON` rejects. Durations are whole
seconds. A parsed certificate is modelled as `isCA` plus an optional
extended-key-usage list. `None` stands for Go's nil slice, and `Some([])`
for a non-nil empty slice.

The model follows the code on three points where a reading of the registry's
intent might differ:

- A leaf with an *empty* usage list might be expected to be exempt. The code tests
  `ExtKeyUsage != nil` (line 185). So a non-nil empty list is scanned,
  nothing is found, and the write is rejected. `Certs.KeyUsageRule` states
  this case. Go's own certificate parser always reports a nil slice
  when no usage is recognised, so this case arises only if some other
  producer hands over an empty list. A leaf whose usage extension lists
  only unrecognised identifiers therefore has a nil slice and is exempt.
  The parser is not part of this model.
- The code adds the system-default warning before it checks for a negative
  `ttl` (lines 147-153). The result is the same,
  because the error response drops the warning. `Certs.NegativeTtlRejected`
  states this.
- Policies are a list, not a set. The model stores the policy list exactly
  as the policy parser returned it.

## Model

| member | source | states |
|---|---|---|
| Certs.Backend.Write | cf-vault-auth-plugin/path_certs.go:131-221 | Returns the reference response. The new store is the old one unchanged on rejection, or updated at exactly one key on acceptance. A well-formed store stays well-formed. |
| Certs.WriteResponse | cf-vault-auth-plugin/path_certs.go:141-220 | An error response exactly when a validation rule fails, carrying the message of the first rule that fails. Otherwise the nil response exactly when there are no advisories, and else the advisories. |
| Certs.StoreAfterWrite | cf-vault-auth-plugin/path_certs.go:198-214 | The store is unchanged on rejection. Otherwise it gains exactly the key of the name, holding the new entry, and every other key keeps its value. |
| Certs.Backend.Delete | cf-vault-auth-plugin/path_certs.go:95-101 | The new store is the old one without the key `cert/` + lower(name). A well-formed store stays well-formed. |
| Certs.HasClientAuth | cf-vault-auth-plugin/path_certs.go:185-196 | The scan returns true exactly when the usage list contains ClientAuth or Any. |
| Certs.Cert | cf-vault-auth-plugin/path_certs.go:79-93 | Absent exactly when the lowercased key is missing. Found exactly when the key holds a decodable entry, and then it returns that entry. DecodeError otherwise. |
| Certs.Read | cf-vault-auth-plugin/path_certs.go:111-128 | The nil response exactly when the key of the name is missing. A failure exactly when that key holds a corrupt record. Otherwise the certificate, display name, policies, ttl and max_ttl of the stored entry. |
| Certs.Deleted | cf-vault-auth-plugin/path_certs.go:96 | The key of the name is gone. Every other key is kept with its value. |
| Certs.KeyIffEqualFold | cf-vault-auth-plugin/path_certs.go:80 | Two names share a storage key exactly when they differ only in letter case. |
| Certs.StoredNameIsLower | cf-vault-auth-plugin/path_certs.go:134 | The stored name has no upper-case letter. Its key is the key of the name as given. |
| Certs.WritePreservesWellFormed | cf-vault-auth-plugin/path_certs.go:198-212 | A write keeps every stored entry under its own name, with that name in lowercase form. It keeps TTLs non-negative, and keeps ttl within a nonzero max_ttl. |
| Certs.ListedEntryReadsBack | cf-vault-auth-plugin/path_certs.go:103-128 | In a well-formed store, a listed name holding a decodable entry is that entry's own name and is in lowercase form. Reading it returns the entry's fields. |
| Certs.NegativeTtlRejected | cf-vault-auth-plugin/path_certs.go:147-164 | A negative ttl gets "ttl cannot be negative", for any system TTLs. Otherwise a negative max_ttl gets "max_ttl cannot be negative". Any collected warning is dropped, and the store is unchanged. |
| Certs.TtlAboveMaxIff | cf-vault-auth-plugin/path_certs.go:166-168 | The ttl-above-max rejection happens if and only if both TTLs are valid, max_ttl > 0 and ttl > max_ttl. So max_ttl = 0 puts no bound on ttl. |
| Certs.RejectionIgnoresSystemTtls | cf-vault-auth-plugin/path_certs.go:144-168 | A write is rejected exactly when a validation rule fails. Whether it is rejected, and the message, do not depend on the system TTLs. |
| Certs.AcceptedWarnings | cf-vault-auth-plugin/path_certs.go:147-220 | An accepted write returns exactly the advisories: one warning per system value exceeded, the ttl warning first and the max_ttl warning last. The response is nil exactly when neither system value is exceeded, and otherwise carries those warnings. |
| Certs.TtlWarningNamesValues | cf-vault-auth-plugin/path_certs.go:148 | The ttl warning names both the requested ttl and the system default: two ttl warnings are equal only when both values are equal. |
| Certs.MaxTtlWarningNamesValues | cf-vault-auth-plugin/path_certs.go:159 | The max_ttl warning names both the requested max_ttl and the system maximum: two max_ttl warnings are equal only when both values are equal. |
| Certs.WarningKindsDistinct | cf-vault-auth-plugin/path_certs.go:147-160 | A max_ttl warning never equals a ttl warning, whatever the four numbers. |
| Certs.EmptyParseRejected | cf-vault-auth-plugin/path_certs.go:177-180 | With valid TTLs, an empty parse result gets "failed to parse certificate", and the store is unchanged. |
| Certs.OnlyFirstCertChecked | cf-vault-auth-plugin/path_certs.go:185-196 | Two parse results with the same first certificate get the same response and the same new store, whatever comes after. |
| Certs.KeyUsageRule | cf-vault-auth-plugin/path_certs.go:185-196 | With valid TTLs and a parsed certificate, the write is accepted if and only if the first certificate is a CA, or has a nil usage list, or lists ClientAuth or Any. Otherwise it gets the client-authentication message. A non-CA certificate with a non-nil empty list is rejected. |
| Certs.ZeroTtlsAccepted | cf-vault-auth-plugin/path_certs.go:145-168 | ttl = max_ttl = 0 with an acceptable certificate is accepted, whatever the system TTLs. |
| Certs.AcceptedWriteStores | cf-vault-auth-plugin/path_certs.go:198-214 | An accepted write adds or replaces exactly the key `cert/` + lower(name). It stores lower(name), the certificate text verbatim, the policies and both TTLs. The display name defaults to lower(name) when empty. Every other key is unchanged. |
| Certs.WriteIdempotent | cf-vault-auth-plugin/path_certs.go:208-214 | Writing the same request twice leaves the same store as writing it once. |
| Certs.ReadAbsent | cf-vault-auth-plugin/path_certs.go:111-118 | Reading a name with no stored key returns the nil response, not an error. |
| Certs.ReadUndecodable | cf-vault-auth-plugin/path_certs.go:88-91 | Reading a key that holds a corrupt record fails. |
| Certs.ReadAfterWrite | cf-vault-auth-plugin/path_certs.go:111-128 | After an accepted write, reading the name in any casing returns what was written: the certificate, the (defaulted) display name, the policies, ttl and max_ttl. |
| Certs.ReadOtherAfterWrite | cf-vault-auth-plugin/path_certs.go:212 | A write does not change what a read returns for a name that is not equal to it up to case. |
| Certs.DeleteAbsent | cf-vault-auth-plugin/path_certs.go:95-101 | Deleting a name that is not stored succeeds and leaves the store unchanged. |
| Certs.ReadAfterDelete | cf-vault-auth-plugin/path_certs.go:96 | After a delete, the name reads as absent in any casing. Every other name reads as before. |
| Certs.List | cf-vault-auth-plugin/path_certs.go:103-108 | A name is listed if and only if the key `cert/` + name is stored. |
| Certs.ListAfterWrite | cf-vault-auth-plugin/path_certs.go:104 | An accepted write adds exactly lower(name) to the listing. |
| Certs.ListAfterDelete | cf-vault-auth-plugin/path_certs.go:104 | A delete removes exactly lower(name) from the listing. |
| Certs.ListThreeWrites | cf-vault-auth-plugin/path_certs.go:103-108 | Writing "a", "b" and "c" into an empty store lists exactly {a, b, c}. |
| Text.LowerIdempotent | cf-vault-auth-plugin/path_certs.go:112 | Lowercasing an already lowered name changes nothing, so the second lowering in `Cert` has no effect. |
| Text.LowerEqualIffEqualFold | cf-vault-auth-plugin/path_certs.go:134 | Two names lower to the same string if and only if they differ only in letter case. |
| Text.Lower | cf-vault-auth-plugin/path_certs.go:134 | `strings.ToLower` keeps the length, lowers each character on its own, and leaves no upper-case letter. |
| Text.NatToDecimal | cf-vault-auth-plugin/path_certs.go:148 | `%d` of a non-negative value is a non-empty string of digits with no leading zero. |
| Text.IntToDecimal | cf-vault-auth-plugin/path_certs.go:148 | `%d` of an integer is non-empty. It starts with a minus sign exactly when the integer is negative, and the rest is digits. |
| Text.IntToDecimalRoundTrip | cf-vault-auth-plugin/path_certs.go:148 | Reading back the `%d` text of an integer gives the integer. |
| Text.IntToDecimalInjective | cf-vault-auth-plugin/path_certs.go:148 | Different integers give different `%d` text. |
| Text.FormatTwo | cf-vault-auth-plugin/path_certs.go:159 | The two-number message has the length of its parts. It starts with the prefix, followed by the first number and a space, and it ends with the suffix. |
| Text.FormatTwoInjective | cf-vault-auth-plugin/path_certs.go:148 | A message made from a fixed prefix, an integer, a space, fixed text, a second integer and a fixed suffix determines both integers. |

## Left out

- Route and field-schema wiring (`pathListCerts`, `pathCerts`) and the help texts: framework scaffolding with no behaviour of its own.
- Logger calls: output only.
- PEM and X.509 decoding (`parsePEM`, `crypto/x509`): foreign code. The parse result is an input sequence of `ParsedCert` records.
- Policy parsing (`policyutil.ParsePolicies`): foreign code. The policy list arrives already parsed and is stored as given.
- JSON encoding and decoding: storage maps keys straight to entries. A record `DecodeJSON` rejects is the value `Undecodable`. An encoding failure of `StorageEntryJSON` is not modelled.
- Storage I/O failures of Get, Put, Delete and List: the store map cannot fail, so the error-propagating branches at lines 81-83, 97-99, 105-107 and 209-214 are not modelled.
- Listing: the result is a set. Storage order, and the storage layer's collapsing of keys that contain a further `/`, are not modelled. Names can never contain `/`.
- Lowercasing is ASCII-only. Entry names match the route pattern `\w(([\w-.]+)?\w)?`, whose classes are ASCII, so no other name reaches these handlers.
- Durations: `ttl` and `max_ttl` are unbounded integer seconds, and the system TTLs are integer-second parameters. The following are not modelled:
  - the `int64` nanosecond overflow of `time.Duration(ttl) * time.Second` for values above about 292 years;
  - sub-second system TTLs.
- `context.Context`, the `b.System()` accessors and concurrency: external. The system TTLs are a `SystemView` parameter.
