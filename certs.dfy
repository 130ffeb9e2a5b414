/** The trusted-certificate registry of the Vault auth plugin
    (cf-vault-auth-plugin/path_certs.go): the validation applied when a
    certificate entry is written, and the read, delete and list operations
    over the plugin's storage, keyed by the lowercased entry name. */
module Certs {
  import opened Wrappers
  import opened Text

  // ---------------------------------------------------------------------
  // Data model
  // ---------------------------------------------------------------------

  /** The `x509.ExtKeyUsage` values Go's certificate parser reports. */
  datatype ExtKeyUsage =
    | Any
    | ServerAuth
    | ClientAuth
    | CodeSigning
    | EmailProtection
    | IPSECEndSystem
    | IPSECTunnel
    | IPSECUser
    | TimeStamping
    | OCSPSigning
    | MicrosoftServerGatedCrypto
    | NetscapeServerGatedCrypto
    | MicrosoftCommercialCodeSigning
    | MicrosoftKernelCodeSigning

  /** The two fields of a parsed X.509 certificate the registry looks at.
      `extKeyUsage` is `None` when Go's slice is nil, which is not the same
      as `Some([])`, a non-nil empty slice. */
  datatype ParsedCert = ParsedCert(isCA: bool, extKeyUsage: Option<seq<ExtKeyUsage>>)

  /** `CertEntry`, the persisted record. Durations are whole seconds. */
  datatype CertEntry = CertEntry(
    name: string,
    certificate: string,
    displayName: string,
    policies: seq<string>,
    ttl: int,
    maxTTL: int)

  /** A storage value: a decodable JSON record of a `CertEntry`, or a blob
      that `DecodeJSON` rejects. */
  datatype Stored = Entry(entry: CertEntry) | Undecodable

  /** The plugin's storage view: key to stored value. */
  type Store = map<string, Stored>

  /** The fields of a write request after the framework has typed them;
      `policies` is the output of the policy parser. */
  datatype WriteRequest = WriteRequest(
    name: string,
    certificate: string,
    displayName: string,
    policies: seq<string>,
    ttl: int,
    maxTTL: int)

  /** The system-wide default and maximum lease TTL, in seconds. */
  datatype SystemView = SystemView(defaultLeaseTTL: int, maxLeaseTTL: int)

  /** What a write returns: `Written(None)` is the nil response, and
      `Written(Some(ws))` the response carrying warnings `ws`;
      `InvalidArgument(msg)` is `logical.ErrorResponse(msg)`. */
  datatype WriteResult = Written(response: Option<seq<string>>) | InvalidArgument(message: string)

  /** What `Cert` returns: the entry, nil, or the decoding error. */
  datatype CertLookup = Found(entry: CertEntry) | Absent | DecodeError

  /** The data map of a read response. */
  datatype CertData = CertData(
    certificate: string,
    displayName: string,
    policies: seq<string>,
    ttl: int,
    maxTTL: int)

  /** What a read returns: `ReadOk(None)` is the nil response. */
  datatype ReadResult = ReadOk(data: Option<CertData>) | ReadFailed

  const CERT_PREFIX := "cert/"

  const TTL_NEGATIVE := "ttl cannot be negative"
  const MAX_TTL_NEGATIVE := "max_ttl cannot be negative"
  const TTL_ABOVE_MAX := "ttl should be shorter than max_ttl"
  const PARSE_FAILED := "failed to parse certificate"
  const NOT_CLIENT_AUTH := "non-CA certificates should have TLS client authentication set as an extended key usage"

  /** The storage key of the entry called `name`, in any casing. */
  function Key(name: string): string {
    CERT_PREFIX + Lower(name)
  }

  const ABOVE_DEFAULT := "seconds is greater than current mount/system default of "

  /** "Given ttl of %d seconds is greater than current mount/system default of %d seconds" */
  function TtlWarning(ttl: int, systemDefault: int): string {
    FormatTwo("Given ttl of ", ttl, ABOVE_DEFAULT, systemDefault, " seconds")
  }

  /** "Given max_ttl of %d seconds is greater than current mount/system default of %d seconds" */
  function MaxTtlWarning(maxTTL: int, systemMax: int): string {
    FormatTwo("Given max_ttl of ", maxTTL, ABOVE_DEFAULT, systemMax, " seconds")
  }

  // ---------------------------------------------------------------------
  // Reference definition of a write
  // ---------------------------------------------------------------------

  /** The key-usage rule: a CA certificate, or one with no extended key
      usage slice at all, is exempt; any other must list client
      authentication or the wildcard usage. */
  predicate UsableForClientAuth(c: ParsedCert) {
    c.isCA || c.extKeyUsage.None? || ClientAuth in c.extKeyUsage.value || Any in c.extKeyUsage.value
  }

  /** The message of the first validation rule a write breaks, in the order
      the rules are checked; `None` when the write is accepted. The system
      TTLs are not among the arguments: they never cause a rejection. */
  function Rejection(req: WriteRequest, parsed: seq<ParsedCert>): Option<string> {
    if req.ttl < 0 then Some(TTL_NEGATIVE)
    else if req.maxTTL < 0 then Some(MAX_TTL_NEGATIVE)
    else if req.maxTTL != 0 && req.ttl > req.maxTTL then Some(TTL_ABOVE_MAX)
    else if |parsed| == 0 then Some(PARSE_FAILED)
    else if !UsableForClientAuth(parsed[0]) then Some(NOT_CLIENT_AUTH)
    else None
  }

  /** The advisory warnings of an accepted write, in the order they are added. */
  function Advisories(req: WriteRequest, sys: SystemView): seq<string> {
    (if req.ttl > sys.defaultLeaseTTL then [TtlWarning(req.ttl, sys.defaultLeaseTTL)] else [])
    + (if req.maxTTL > sys.maxLeaseTTL then [MaxTtlWarning(req.maxTTL, sys.maxLeaseTTL)] else [])
  }

  /** The entry an accepted write stores. */
  function NewEntry(req: WriteRequest): CertEntry {
    var name := Lower(req.name);
    CertEntry(name, req.certificate, if req.displayName == "" then name else req.displayName,
              req.policies, req.ttl, req.maxTTL)
  }

  /** The response of a write: the error response of the first broken rule,
      or the advisories, with the nil response when there are none. */
  function WriteResponse(req: WriteRequest, sys: SystemView, parsed: seq<ParsedCert>): (r: WriteResult)
    ensures r.InvalidArgument? <==> Rejection(req, parsed).Some?
    ensures r.InvalidArgument? ==> Rejection(req, parsed) == Some(r.message)
    ensures r.Written? ==> (r.response.None? <==> Advisories(req, sys) == [])
    ensures r.Written? && r.response.Some? ==> r.response.value == Advisories(req, sys)
  {
    match Rejection(req, parsed)
    case Some(msg) => InvalidArgument(msg)
    case None =>
      var ws := Advisories(req, sys);
      Written(if ws == [] then None else Some(ws))
  }

  /** The store after a write: unchanged on rejection; otherwise the new
      entry under the key of the name, every other key as before. */
  function StoreAfterWrite(store: Store, req: WriteRequest, parsed: seq<ParsedCert>): (s: Store)
    ensures Rejection(req, parsed).Some? ==> s == store
    ensures Rejection(req, parsed).None? ==>
      && s.Keys == store.Keys + {Key(req.name)}
      && s[Key(req.name)] == Entry(NewEntry(req))
      && (forall k :: k in store && k != Key(req.name) ==> s[k] == store[k])
  {
    if Rejection(req, parsed).Some? then store else store[Key(req.name) := Entry(NewEntry(req))]
  }

  // ---------------------------------------------------------------------
  // The extended-key-usage scan
  // ---------------------------------------------------------------------

  /** The loop of `pathCertWrite` that sets `clientAuth` when it meets
      client authentication or the wildcard usage, and stops there. */
  method HasClientAuth(usages: seq<ExtKeyUsage>) returns (clientAuth: bool)
    ensures clientAuth <==> ClientAuth in usages || Any in usages
  {
    clientAuth := false;
    var i := 0;
    while i < |usages|
      invariant 0 <= i <= |usages|
      invariant !clientAuth
      invariant forall j :: 0 <= j < i ==> usages[j] != ClientAuth && usages[j] != Any
    {
      if usages[i] == ClientAuth || usages[i] == Any {
        clientAuth := true;
        break;
      }
      i := i + 1;
    }
  }

  // ---------------------------------------------------------------------
  // Reads, deletes and lists over the store
  // ---------------------------------------------------------------------

  /** `Cert`: looks up the lowercased name under the `cert/` prefix. */
  function Cert(store: Store, n: string): (r: CertLookup)
    ensures r.Absent? <==> Key(n) !in store
    ensures r.Found? <==> Key(n) in store && store[Key(n)].Entry?
    ensures r.Found? ==> r.entry == store[Key(n)].entry
  {
    var key := CERT_PREFIX + Lower(n);
    if key !in store then Absent
    else
      match store[key]
      case Entry(e) => Found(e)
      case Undecodable => DecodeError
  }

  /** `pathCertRead`: lowers the request name, asks `Cert`, and reports the
      stored fields other than the name. */
  function Read(store: Store, name: string): (r: ReadResult)
    ensures r == ReadOk(None) <==> Key(name) !in store
    ensures r.ReadFailed? <==> Key(name) in store && store[Key(name)].Undecodable?
    ensures r.ReadOk? && r.data.Some? ==>
      && Key(name) in store && store[Key(name)].Entry?
      && var e := store[Key(name)].entry;
         r.data.value == CertData(e.certificate, e.displayName, e.policies, e.ttl, e.maxTTL)
  {
    LowerIdempotent(name);
    match Cert(store, Lower(name))
    case Found(e) => ReadOk(Some(CertData(e.certificate, e.displayName, e.policies, e.ttl, e.maxTTL)))
    case Absent => ReadOk(None)
    case DecodeError => ReadFailed
  }

  /** `pathCertDelete` on the store. */
  function Deleted(store: Store, name: string): (s: Store)
    ensures Key(name) !in s
    ensures forall k :: k in s <==> k in store && k != Key(name)
    ensures forall k :: k in s ==> s[k] == store[k]
  {
    store - {Key(name)}
  }

  predicate HasPrefix(prefix: string, s: string) {
    |prefix| <= |s| && s[..|prefix|] == prefix
  }

  /** `pathCertList`: the keys under the `cert/` prefix, without the prefix. */
  function List(store: Store): (r: set<string>)
    ensures forall x :: x in r <==> CERT_PREFIX + x in store
  {
    var r := set k | k in store && HasPrefix(CERT_PREFIX, k) :: k[|CERT_PREFIX|..];
    PrefixStripped(store, r);
    r
  }

  /** The keys under the prefix, stripped of it, are exactly the names whose
      prefixed key is stored. */
  lemma PrefixStripped(store: Store, r: set<string>)
    requires r == set k | k in store && HasPrefix(CERT_PREFIX, k) :: k[|CERT_PREFIX|..]
    ensures forall x :: x in r <==> CERT_PREFIX + x in store
  {
    forall x ensures x in r <==> CERT_PREFIX + x in store {
      var k := CERT_PREFIX + x;
      if k in store {
        assert HasPrefix(CERT_PREFIX, k) && k[|CERT_PREFIX|..] == x;
      }
      if x in r {
        var k' :| k' in store && HasPrefix(CERT_PREFIX, k') && k'[|CERT_PREFIX|..] == x;
        assert k' == k'[..|CERT_PREFIX|] + k'[|CERT_PREFIX|..];
      }
    }
  }

  // ---------------------------------------------------------------------
  // The backend holding the store
  // ---------------------------------------------------------------------

  /** Every decodable entry under the `cert/` prefix keeps the invariants of
      a trust entry: it sits under its own name, which is in lowercase form,
      its TTLs are not negative, and a nonzero max TTL bounds the TTL. */
  predicate WellFormed(store: Store) {
    forall k :: k in store && HasPrefix(CERT_PREFIX, k) && store[k].Entry? ==>
      var e := store[k].entry;
      k == CERT_PREFIX + e.name && IsLower(e.name) && e.ttl >= 0 && e.maxTTL >= 0 && (e.maxTTL != 0 ==> e.ttl <= e.maxTTL)
  }

  class Backend {
    var store: Store

    constructor (initial: Store)
      ensures store == initial
    {
      store := initial;
    }

    /** `pathCertWrite`: the checks in the order the source makes them, with
        warnings collected as they arise and dropped with any rejection. */
    method Write(req: WriteRequest, sys: SystemView, parsed: seq<ParsedCert>) returns (r: WriteResult)
      modifies this
      ensures r == WriteResponse(req, sys, parsed)
      ensures store == StoreAfterWrite(old(store), req, parsed)
      ensures WellFormed(old(store)) ==> WellFormed(store)
    {
      var name := Lower(req.name);
      var warnings: seq<string> := [];

      if req.ttl > sys.defaultLeaseTTL {
        warnings := warnings + [TtlWarning(req.ttl, sys.defaultLeaseTTL)];
      }
      if req.ttl < 0 {
        return InvalidArgument(TTL_NEGATIVE);
      }

      if req.maxTTL > sys.maxLeaseTTL {
        warnings := warnings + [MaxTtlWarning(req.maxTTL, sys.maxLeaseTTL)];
      }
      if req.maxTTL < 0 {
        return InvalidArgument(MAX_TTL_NEGATIVE);
      }
      if req.maxTTL != 0 && req.ttl > req.maxTTL {
        return InvalidArgument(TTL_ABOVE_MAX);
      }

      var displayName := req.displayName;
      if displayName == "" {
        displayName := name;
      }

      if |parsed| == 0 {
        return InvalidArgument(PARSE_FAILED);
      }
      if !parsed[0].isCA && parsed[0].extKeyUsage.Some? {
        var clientAuth := HasClientAuth(parsed[0].extKeyUsage.value);
        if !clientAuth {
          return InvalidArgument(NOT_CLIENT_AUTH);
        }
      }

      var entry := CertEntry(name, req.certificate, displayName, req.policies, req.ttl, req.maxTTL);
      WritePreservesWellFormed(store, req, parsed);
      store := store[CERT_PREFIX + name := Entry(entry)];

      assert warnings == Advisories(req, sys);
      if |warnings| == 0 {
        return Written(None);
      }
      return Written(Some(warnings));
    }

    /** `pathCertDelete`: removes the key, present or not. */
    method Delete(name: string)
      modifies this
      ensures store == Deleted(old(store), name)
      ensures WellFormed(old(store)) ==> WellFormed(store)
    {
      store := store - {CERT_PREFIX + Lower(name)};
    }
  }

  // ---------------------------------------------------------------------
  // Properties of the registry
  // ---------------------------------------------------------------------

  /** Keys are case-insensitive: two names share a key exactly when they
      differ only in letter case. */
  lemma KeyIffEqualFold(a: string, b: string)
    ensures Key(a) == Key(b) <==> EqualFold(a, b)
  {
    LowerEqualIffEqualFold(a, b);
    if Key(a) == Key(b) {
      assert Lower(a) == Key(a)[|CERT_PREFIX|..];
    }
  }

  /** The key under which an accepted write stores its entry, and the name
      recorded in it, are already in lowercase form. */
  lemma StoredNameIsLower(req: WriteRequest)
    ensures IsLower(NewEntry(req).name)
    ensures Key(NewEntry(req).name) == Key(req.name)
  {
    LowerIdempotent(req.name);
  }

  lemma WritePreservesWellFormed(store: Store, req: WriteRequest, parsed: seq<ParsedCert>)
    ensures WellFormed(store) ==> WellFormed(StoreAfterWrite(store, req, parsed))
  {
    StoredNameIsLower(req);
  }

  /** In a well-formed store, a listed name that holds a decodable entry is
      that entry's own name, is in lowercase form, and reads back the
      entry's fields. */
  lemma ListedEntryReadsBack(store: Store, name: string)
    requires WellFormed(store)
    requires name in List(store) && store[CERT_PREFIX + name].Entry?
    ensures var e := store[CERT_PREFIX + name].entry;
      && e.name == name && IsLower(name)
      && Read(store, name) == ReadOk(Some(CertData(e.certificate, e.displayName, e.policies, e.ttl, e.maxTTL)))
  {
    var k := CERT_PREFIX + name;
    assert HasPrefix(CERT_PREFIX, k);
    assert k[|CERT_PREFIX|..] == name;
    LowerFixesLower(name);
  }

  /** A negative ttl, or a negative max_ttl, is rejected whatever the system
      TTLs, any warning already collected is dropped, and the store is left
      as it was. */
  lemma NegativeTtlRejected(store: Store, req: WriteRequest, sys: SystemView, parsed: seq<ParsedCert>)
    requires req.ttl < 0 || req.maxTTL < 0
    ensures WriteResponse(req, sys, parsed)
      == InvalidArgument(if req.ttl < 0 then TTL_NEGATIVE else MAX_TTL_NEGATIVE)
    ensures StoreAfterWrite(store, req, parsed) == store
  {
  }

  /** The "ttl should be shorter than max_ttl" rejection happens exactly
      when both TTLs are valid, max_ttl is nonzero, and ttl exceeds it; in
      particular a zero max_ttl puts no bound on ttl. */
  lemma TtlAboveMaxIff(req: WriteRequest, parsed: seq<ParsedCert>)
    ensures Rejection(req, parsed) == Some(TTL_ABOVE_MAX)
      <==> req.ttl >= 0 && req.maxTTL > 0 && req.ttl > req.maxTTL
  {
  }

  /** A write is rejected exactly when the rule it breaks says so, and the
      system TTLs never change whether it is rejected or with which message. */
  lemma RejectionIgnoresSystemTtls(req: WriteRequest, sys1: SystemView, sys2: SystemView, parsed: seq<ParsedCert>)
    ensures WriteResponse(req, sys1, parsed).InvalidArgument? <==> Rejection(req, parsed).Some?
    ensures WriteResponse(req, sys1, parsed).InvalidArgument?
      ==> WriteResponse(req, sys1, parsed) == WriteResponse(req, sys2, parsed)
  {
  }

  /** An accepted write carries one warning for a ttl above the system
      default and one for a max_ttl above the system maximum, in that order,
      and returns the nil response exactly when neither applies. */
  lemma AcceptedWarnings(req: WriteRequest, sys: SystemView, parsed: seq<ParsedCert>)
    requires Rejection(req, parsed).None?
    ensures var r := WriteResponse(req, sys, parsed);
      && r.Written?
      && (r.response.None? <==> req.ttl <= sys.defaultLeaseTTL && req.maxTTL <= sys.maxLeaseTTL)
      && (r.response.Some? ==> |r.response.value| > 0)
      && r.response == (if Advisories(req, sys) == [] then None else Some(Advisories(req, sys)))
      && |Advisories(req, sys)| == (if req.ttl > sys.defaultLeaseTTL then 1 else 0)
                                 + (if req.maxTTL > sys.maxLeaseTTL then 1 else 0)
      && (req.ttl > sys.defaultLeaseTTL
          ==> Advisories(req, sys)[0] == TtlWarning(req.ttl, sys.defaultLeaseTTL))
      && (req.maxTTL > sys.maxLeaseTTL
          ==> Advisories(req, sys)[|Advisories(req, sys)| - 1] == MaxTtlWarning(req.maxTTL, sys.maxLeaseTTL))
  {
  }

  /** The ttl warning names both the requested ttl and the system default:
      the two values can be read back from it. */
  lemma TtlWarningNamesValues(ttl: int, systemDefault: int, ttl': int, systemDefault': int)
    requires TtlWarning(ttl, systemDefault) == TtlWarning(ttl', systemDefault')
    ensures ttl == ttl' && systemDefault == systemDefault'
  {
    FormatTwoInjective("Given ttl of ", ABOVE_DEFAULT, " seconds", ttl, systemDefault, ttl', systemDefault');
  }

  /** The max_ttl warning names both the requested max_ttl and the system
      maximum: the two values can be read back from it. */
  lemma MaxTtlWarningNamesValues(maxTTL: int, systemMax: int, maxTTL': int, systemMax': int)
    requires MaxTtlWarning(maxTTL, systemMax) == MaxTtlWarning(maxTTL', systemMax')
    ensures maxTTL == maxTTL' && systemMax == systemMax'
  {
    FormatTwoInjective("Given max_ttl of ", ABOVE_DEFAULT, " seconds", maxTTL, systemMax, maxTTL', systemMax');
  }

  /** A max_ttl warning is never a ttl warning, whatever the four numbers. */
  lemma WarningKindsDistinct(maxTTL: int, systemMax: int, ttl: int, systemDefault: int)
    ensures MaxTtlWarning(maxTTL, systemMax) != TtlWarning(ttl, systemDefault)
  {
    var w1 := MaxTtlWarning(maxTTL, systemMax);
    var w2 := TtlWarning(ttl, systemDefault);
    assert w1[..17] == "Given max_ttl of ";
    assert w2[..13] == "Given ttl of ";
    assert w1[6] == w1[..17][6] == 'm';
    assert w2[6] == w2[..13][6] == 't';
  }

  /** A write whose certificate text parses to nothing is rejected once the
      TTLs are valid. */
  lemma EmptyParseRejected(store: Store, req: WriteRequest, sys: SystemView)
    requires req.ttl >= 0 && req.maxTTL >= 0 && (req.maxTTL != 0 ==> req.ttl <= req.maxTTL)
    ensures WriteResponse(req, sys, []) == InvalidArgument(PARSE_FAILED)
    ensures StoreAfterWrite(store, req, []) == store
  {
  }

  /** Only the first parsed certificate is inspected: bundles that agree on
      it are treated alike, whatever follows. */
  lemma OnlyFirstCertChecked(store: Store, req: WriteRequest, sys: SystemView, p1: seq<ParsedCert>, p2: seq<ParsedCert>)
    requires |p1| > 0 && |p2| > 0 && p1[0] == p2[0]
    ensures WriteResponse(req, sys, p1) == WriteResponse(req, sys, p2)
    ensures StoreAfterWrite(store, req, p1) == StoreAfterWrite(store, req, p2)
  {
  }

  /** The key-usage rule: with valid TTLs and a parsed certificate, the write
      is accepted exactly when the first certificate is a CA, has a nil
      usage slice, or lists client authentication or the wildcard; so a
      non-nil empty slice is rejected. */
  lemma KeyUsageRule(req: WriteRequest, sys: SystemView, parsed: seq<ParsedCert>)
    requires req.ttl >= 0 && req.maxTTL >= 0 && (req.maxTTL != 0 ==> req.ttl <= req.maxTTL)
    requires |parsed| > 0
    ensures var c := parsed[0];
      WriteResponse(req, sys, parsed).Written?
      <==> c.isCA || c.extKeyUsage.None? || ClientAuth in c.extKeyUsage.value || Any in c.extKeyUsage.value
    ensures WriteResponse(req, sys, parsed).InvalidArgument?
      ==> WriteResponse(req, sys, parsed) == InvalidArgument(NOT_CLIENT_AUTH)
    ensures !parsed[0].isCA && parsed[0].extKeyUsage == Some([])
      ==> WriteResponse(req, sys, parsed).InvalidArgument?
  {
  }

  /** A zero ttl with a zero max_ttl passes the TTL checks whatever the
      system TTLs: the write is accepted as soon as the certificate is. */
  lemma ZeroTtlsAccepted(req: WriteRequest, sys: SystemView, parsed: seq<ParsedCert>)
    requires req.ttl == 0 && req.maxTTL == 0
    requires |parsed| > 0 && UsableForClientAuth(parsed[0])
    ensures WriteResponse(req, sys, parsed).Written?
  {
  }

  /** An accepted write stores exactly one entry, under the lowercased
      name, with the fields as given and the display name defaulted to the
      lowercased name; every other key keeps its value. */
  lemma AcceptedWriteStores(store: Store, req: WriteRequest, parsed: seq<ParsedCert>)
    requires Rejection(req, parsed).None?
    ensures var s := StoreAfterWrite(store, req, parsed);
      && s.Keys == store.Keys + {CERT_PREFIX + Lower(req.name)}
      && s[CERT_PREFIX + Lower(req.name)] == Entry(CertEntry(
           Lower(req.name), req.certificate,
           if req.displayName == "" then Lower(req.name) else req.displayName,
           req.policies, req.ttl, req.maxTTL))
      && (forall k :: k in store && k != CERT_PREFIX + Lower(req.name) ==> s[k] == store[k])
  {
  }

  /** Writing the same request twice leaves the store as one write does. */
  lemma WriteIdempotent(store: Store, req: WriteRequest, parsed: seq<ParsedCert>)
    ensures StoreAfterWrite(StoreAfterWrite(store, req, parsed), req, parsed)
      == StoreAfterWrite(store, req, parsed)
  {
  }

  /** Reading an absent name gives the nil response, not an error. */
  lemma ReadAbsent(store: Store, name: string)
    requires Key(name) !in store
    ensures Read(store, name) == ReadOk(None)
  {
    LowerIdempotent(name);
  }

  /** A corrupt record under the key makes the read fail. */
  lemma ReadUndecodable(store: Store, name: string)
    requires Key(name) in store && store[Key(name)] == Undecodable
    ensures Read(store, name) == ReadFailed
  {
    LowerIdempotent(name);
  }

  /** After an accepted write, a read of the same name in any casing returns
      what was written. */
  lemma ReadAfterWrite(store: Store, req: WriteRequest, parsed: seq<ParsedCert>, name: string)
    requires Rejection(req, parsed).None?
    requires EqualFold(name, req.name)
    ensures Read(StoreAfterWrite(store, req, parsed), name) == ReadOk(Some(CertData(
      req.certificate,
      if req.displayName == "" then Lower(req.name) else req.displayName,
      req.policies, req.ttl, req.maxTTL)))
  {
    LowerEqualIffEqualFold(name, req.name);
    LowerIdempotent(name);
  }

  /** A write leaves the reading of every name not equal to it up to case
      unchanged. */
  lemma ReadOtherAfterWrite(store: Store, req: WriteRequest, parsed: seq<ParsedCert>, name: string)
    requires !EqualFold(name, req.name)
    ensures Read(StoreAfterWrite(store, req, parsed), name) == Read(store, name)
  {
    LowerIdempotent(name);
    KeyIffEqualFold(name, req.name);
  }

  /** Deleting an absent name succeeds and changes nothing. */
  lemma DeleteAbsent(store: Store, name: string)
    requires Key(name) !in store
    ensures Deleted(store, name) == store
  {
  }

  /** After a delete, the name reads as absent in any casing, and every other
      name reads as before. */
  lemma ReadAfterDelete(store: Store, deleted: string, name: string)
    ensures EqualFold(name, deleted) ==> Read(Deleted(store, deleted), name) == ReadOk(None)
    ensures !EqualFold(name, deleted) ==> Read(Deleted(store, deleted), name) == Read(store, name)
  {
    LowerIdempotent(name);
    KeyIffEqualFold(name, deleted);
  }

  /** An accepted write adds the lowercased name to the listing and nothing else. */
  lemma ListAfterWrite(store: Store, req: WriteRequest, parsed: seq<ParsedCert>)
    requires Rejection(req, parsed).None?
    ensures List(StoreAfterWrite(store, req, parsed)) == List(store) + {Lower(req.name)}
  {
    var s := StoreAfterWrite(store, req, parsed);
    forall x ensures x in List(s) <==> x in List(store) + {Lower(req.name)} {
      if x != Lower(req.name) {
        assert CERT_PREFIX + x != CERT_PREFIX + Lower(req.name) by {
          assert (CERT_PREFIX + x)[|CERT_PREFIX|..] == x;
        }
      }
    }
  }

  /** A delete removes the lowercased name from the listing and nothing else. */
  lemma ListAfterDelete(store: Store, name: string)
    ensures List(Deleted(store, name)) == List(store) - {Lower(name)}
  {
    var s := Deleted(store, name);
    forall x ensures x in List(s) <==> x in List(store) - {Lower(name)} {
      if x != Lower(name) {
        assert CERT_PREFIX + x != CERT_PREFIX + Lower(name) by {
          assert (CERT_PREFIX + x)[|CERT_PREFIX|..] == x;
        }
      }
    }
  }

  /** Writing entries "a", "b" and "c" into an empty store lists exactly
      those three names. */
  lemma ListThreeWrites(cert: ParsedCert, ra: WriteRequest, rb: WriteRequest, rc: WriteRequest)
    requires UsableForClientAuth(cert)
    requires ra.name == "a" && rb.name == "b" && rc.name == "c"
    requires forall r :: r in [ra, rb, rc] ==> r.ttl == 0 && r.maxTTL == 0
    ensures var s := StoreAfterWrite(StoreAfterWrite(StoreAfterWrite(map[], ra, [cert]), rb, [cert]), rc, [cert]);
      List(s) == {"a", "b", "c"}
  {
    var s1 := StoreAfterWrite(map[], ra, [cert]);
    var s2 := StoreAfterWrite(s1, rb, [cert]);
    assert List(map[]) == {};
    ListAfterWrite(map[], ra, [cert]);
    ListAfterWrite(s1, rb, [cert]);
    ListAfterWrite(s2, rc, [cert]);
    assert Lower("a") == "a" && Lower("b") == "b" && Lower("c") == "c";
  }
}
