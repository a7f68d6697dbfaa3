/**
 * What the reconciliation promises its callers, proved about the
 * specification that ValidateDomainModels is shown to compute.
 */
module ReconcileProperties {
  import opened Wrappers
  import opened JsText
  import opened DomainModels

  // ---------------------------------------------------------------------------
  // Listing failure
  // ---------------------------------------------------------------------------

  /** A listing error is passed on behind a fixed prefix and nothing is compared. */
  lemma ListingErrorReported(strict: bool, e: string, models: seq<DomainModel>, registry: seq<LocalDomain>)
    requires e != ""
    ensures Validate(strict, Some(e), models, registry) == Some(ListingErrorPrefix + e)
  {
  }

  /** An empty error message is falsy, so the run proceeds as if the listing had succeeded. */
  lemma EmptyErrorIgnored(strict: bool, models: seq<DomainModel>, registry: seq<LocalDomain>)
    ensures Validate(strict, Some(""), models, registry) == Validate(strict, None, models, registry)
  {
  }

  // ---------------------------------------------------------------------------
  // Strict mode: the two ordered set differences
  // ---------------------------------------------------------------------------

  /** The local URIs of a registry: the URIs of the graph objects built from it. */
  function LocalUris(registry: seq<LocalDomain>): seq<string>
  {
    Uris(LocalModels(registry))
  }

  /** What the local-only list holds: each local URI the server lacks, once, in local key order. */
  lemma LocalOnlySpec(models: seq<DomainModel>, registry: seq<LocalDomain>)
    ensures forall u :: u in LocalOnly(models, registry) <==> u in LocalUris(registry) && u !in Uris(models)
    ensures Distinct(LocalOnly(models, registry))
    ensures InFirstOccurrenceOrder(LocalOnly(models, registry), LocalUris(registry))
  {
    var locals := IndexByUri(LocalModels(registry));
    var server := IndexByUri(models);
    IndexByUriKeys(LocalModels(registry));
    IndexByUriKeys(models);
    IndexByUriOrder(LocalModels(registry));
    WithoutMembers(locals.keys, server.keys);
    WithoutDistinct(locals.keys, server.keys);
    WithoutKeepsOrder(locals.keys, server.keys, LocalUris(registry));
  }

  /** What the server-only list holds: each server URI not loaded locally, once, in server key order. */
  lemma ServerOnlySpec(models: seq<DomainModel>, registry: seq<LocalDomain>)
    ensures forall u :: u in ServerOnly(models, registry) <==> u in Uris(models) && u !in LocalUris(registry)
    ensures Distinct(ServerOnly(models, registry))
    ensures InFirstOccurrenceOrder(ServerOnly(models, registry), Uris(models))
  {
    var locals := IndexByUri(LocalModels(registry));
    var server := IndexByUri(models);
    IndexByUriKeys(LocalModels(registry));
    IndexByUriKeys(models);
    IndexByUriOrder(models);
    WithoutMembers(server.keys, locals.keys);
    WithoutDistinct(server.keys, locals.keys);
    WithoutKeepsOrder(server.keys, locals.keys, Uris(models));
  }

  /**
   * Strict mode with a local URI the server does not list: the report names
   * exactly the local-only URIs, and no later check runs.
   */
  lemma LocalOnlyReported(error: Option<string>, models: seq<DomainModel>, registry: seq<LocalDomain>, i: nat)
    requires !IsTruthy(error)
    requires i < |registry| && registry[i].domainURI !in Uris(models)
    ensures LocalOnly(models, registry) != []
    ensures Validate(true, error, models, registry) ==
      Some(LocalOnlyPrefix + Join(LocalOnly(models, registry), Separator))
  {
    LocalOnlySpec(models, registry);
    assert LocalUris(registry)[i] == registry[i].domainURI;
  }

  /**
   * Strict mode with every local URI on the server but some server URI not
   * loaded locally: the report names exactly the server-only URIs.
   */
  lemma ServerOnlyReported(error: Option<string>, models: seq<DomainModel>, registry: seq<LocalDomain>, j: nat)
    requires !IsTruthy(error)
    requires forall i :: 0 <= i < |registry| ==> registry[i].domainURI in Uris(models)
    requires j < |models| && models[j].uri !in LocalUris(registry)
    ensures LocalOnly(models, registry) == []
    ensures ServerOnly(models, registry) != []
    ensures Validate(true, error, models, registry) ==
      Some(ServerOnlyPrefix + Join(ServerOnly(models, registry), Separator))
  {
    LocalOnlySpec(models, registry);
    ServerOnlySpec(models, registry);
    IndexByUriKeys(LocalModels(registry));
    IndexByUriKeys(models);
    forall u | u in IndexByUri(LocalModels(registry)).keys ensures u in IndexByUri(models).keys {
      var k :| 0 <= k < |registry| && LocalUris(registry)[k] == u;
      assert registry[k].domainURI == u;
    }
    WithoutEmptyIff(IndexByUri(LocalModels(registry)).keys, IndexByUri(models).keys);
    assert Uris(models)[j] == models[j].uri;
  }

  /** Once the local-only check passes, every local descriptor has a server counterpart to look up. */
  lemma StrictLookupSucceeds(models: seq<DomainModel>, registry: seq<LocalDomain>)
    requires LocalOnly(models, registry) == []
    ensures forall i :: 0 <= i < |registry| ==> registry[i].domainURI in IndexByUri(models).entries
  {
    LocalOnlySpec(models, registry);
    IndexByUriKeys(models);
    forall i | 0 <= i < |registry| ensures registry[i].domainURI in IndexByUri(models).entries {
      assert LocalUris(registry)[i] == registry[i].domainURI;
    }
  }

  // ---------------------------------------------------------------------------
  // Per-descriptor entries
  // ---------------------------------------------------------------------------

  /** One descriptor contributes its own entries, in place, to those of the list around it. */
  lemma MismatchesSplit(pre: seq<DomainModel>, d: DomainModel, post: seq<DomainModel>, server: map<string, DomainModel>)
    ensures Mismatches(pre + [d] + post, server) ==
      Mismatches(pre, server) + EntriesFor(d, server) + Mismatches(post, server)
  {
    MismatchesAppend(pre + [d], post, server);
    MismatchesAppend(pre, [d], server);
    assert [d][..0] == [];
  }

  /**
   * A defined local hash that differs from the server's (absent included)
   * yields exactly one hash entry; the version is then not compared.
   */
  lemma HashMismatchEntry(pre: seq<DomainModel>, d: DomainModel, post: seq<DomainModel>, server: map<string, DomainModel>)
    requires d.uri in server && d.domainOWLHash.Some? && d.domainOWLHash != server[d.uri].domainOWLHash
    ensures Mismatches(pre + [d] + post, server) ==
      Mismatches(pre, server)
      + [HashMismatch(d.uri, d.domainOWLHash.value, server[d.uri].domainOWLHash)]
      + Mismatches(post, server)
  {
    MismatchesSplit(pre, d, post, server);
  }

  /**
   * With the hash absent locally or equal to the server's, a defined local
   * version that differs yields exactly one version entry.
   */
  lemma VersionMismatchEntry(pre: seq<DomainModel>, d: DomainModel, post: seq<DomainModel>, server: map<string, DomainModel>)
    requires d.uri in server
    requires d.domainOWLHash == None || d.domainOWLHash == server[d.uri].domainOWLHash
    requires d.versionInfo.Some? && d.versionInfo != server[d.uri].versionInfo
    ensures Mismatches(pre + [d] + post, server) ==
      Mismatches(pre, server)
      + [VersionMismatch(d.uri, d.versionInfo.value, server[d.uri].versionInfo)]
      + Mismatches(post, server)
  {
    MismatchesSplit(pre, d, post, server);
  }

  /** A descriptor consistent with its counterpart, or without one, yields no entry. */
  lemma NoEntryWhenConsistent(pre: seq<DomainModel>, d: DomainModel, post: seq<DomainModel>, server: map<string, DomainModel>)
    requires d.uri in server ==> Consistent(d, server[d.uri])
    ensures Mismatches(pre + [d] + post, server) == Mismatches(pre, server) + Mismatches(post, server)
  {
    MismatchesSplit(pre, d, post, server);
  }

  /** Each local descriptor contributes at most one entry. */
  lemma {:induction false} MismatchesBound(list: seq<DomainModel>, server: map<string, DomainModel>)
    ensures |Mismatches(list, server)| <= |list|
  {
    if list != [] {
      MismatchesBound(list[..|list| - 1], server);
    }
  }

  /** No entry is collected exactly when every local descriptor the server has is consistent with it. */
  lemma {:induction false} MismatchesEmptyIff(list: seq<DomainModel>, server: map<string, DomainModel>)
    ensures Mismatches(list, server) == [] <==>
      forall i :: 0 <= i < |list| && list[i].uri in server ==> Consistent(list[i], server[list[i].uri])
  {
    if list != [] {
      var n := |list| - 1;
      MismatchesEmptyIff(list[..n], server);
      assert forall i :: 0 <= i < n ==> list[..n][i] == list[i];
    }
  }

  // ---------------------------------------------------------------------------
  // Non-strict mode
  // ---------------------------------------------------------------------------

  lemma LocalModelsSplit(pre: seq<LocalDomain>, d: LocalDomain, post: seq<LocalDomain>)
    ensures LocalModels(pre + [d] + post) == LocalModels(pre) + [FromLocal(d)] + LocalModels(post)
    ensures LocalModels(pre + post) == LocalModels(pre) + LocalModels(post)
  {
  }

  /**
   * Outside strict mode a local domain the server does not list is skipped:
   * removing it from the registry changes nothing, so it never causes a
   * failure on its own.
   */
  lemma NonStrictSkipsLocalOnly(error: Option<string>, models: seq<DomainModel>,
                                pre: seq<LocalDomain>, d: LocalDomain, post: seq<LocalDomain>)
    requires d.domainURI !in Uris(models)
    ensures Validate(false, error, models, pre + [d] + post) == Validate(false, error, models, pre + post)
  {
    IndexByUriKeys(models);
    SkippedEntry(pre, d, post, IndexByUri(models).entries);
  }

  /** A registry entry whose URI the server dictionary lacks contributes no entry. */
  lemma SkippedEntry(pre: seq<LocalDomain>, d: LocalDomain, post: seq<LocalDomain>, server: map<string, DomainModel>)
    requires d.domainURI !in server
    ensures Mismatches(LocalModels(pre + [d] + post), server) == Mismatches(LocalModels(pre + post), server)
  {
    LocalModelsSplit(pre, d, post);
    MismatchesSplit(LocalModels(pre), FromLocal(d), LocalModels(post), server);
    MismatchesAppend(LocalModels(pre), LocalModels(post), server);
  }

  // ---------------------------------------------------------------------------
  // The outcome as a whole
  // ---------------------------------------------------------------------------

  /** The local and the server listings name the same URIs. */
  ghost predicate SameUris(models: seq<DomainModel>, registry: seq<LocalDomain>)
  {
    forall u :: u in LocalUris(registry) <==> u in Uris(models)
  }

  /** Every local descriptor the server has agrees with the server's (last-listed) descriptor. */
  ghost predicate AllConsistent(models: seq<DomainModel>, registry: seq<LocalDomain>)
  {
    var server := IndexByUri(models).entries;
    forall i :: 0 <= i < |registry| && registry[i].domainURI in server ==>
      Consistent(FromLocal(registry[i]), server[registry[i].domainURI])
  }

  lemma SetChecksPassIff(models: seq<DomainModel>, registry: seq<LocalDomain>)
    ensures (LocalOnly(models, registry) == [] && ServerOnly(models, registry) == []) <==> SameUris(models, registry)
  {
    LocalOnlySpec(models, registry);
    ServerOnlySpec(models, registry);
    if LocalOnly(models, registry) != [] {
      assert LocalOnly(models, registry)[0] in LocalOnly(models, registry);
    }
    if ServerOnly(models, registry) != [] {
      assert ServerOnly(models, registry)[0] in ServerOnly(models, registry);
    }
  }

  lemma MismatchesEmptyIffConsistent(models: seq<DomainModel>, registry: seq<LocalDomain>)
    ensures Mismatches(LocalModels(registry), IndexByUri(models).entries) == [] <==> AllConsistent(models, registry)
  {
    MismatchesEmptyIff(LocalModels(registry), IndexByUri(models).entries);
  }

  /**
   * Success exactly when the listing did not fail, in strict mode both sides
   * name the same URIs, and no local descriptor disagrees with the server's.
   */
  lemma SuccessIff(strict: bool, error: Option<string>, models: seq<DomainModel>, registry: seq<LocalDomain>)
    ensures Validate(strict, error, models, registry) == None <==>
      !IsTruthy(error) && (strict ==> SameUris(models, registry)) && AllConsistent(models, registry)
  {
    SetChecksPassIff(models, registry);
    MismatchesEmptyIffConsistent(models, registry);
  }

  /**
   * With the earlier checks passed and some disagreement, the report is the
   * count-prefixed entry list; the count is between one and the registry size
   * and its decimal text reads back as the count.
   */
  lemma DifferencesReported(strict: bool, error: Option<string>, models: seq<DomainModel>, registry: seq<LocalDomain>)
    requires !IsTruthy(error)
    requires strict ==> SameUris(models, registry)
    requires !AllConsistent(models, registry)
    ensures var entries := Mismatches(LocalModels(registry), IndexByUri(models).entries);
      && 1 <= |entries| <= |registry|
      && DecimalValue(NatToString(|entries|)) == |entries|
      && Validate(strict, error, models, registry) == Some(DifferentReport(entries))
  {
    var entries := Mismatches(LocalModels(registry), IndexByUri(models).entries);
    SetChecksPassIff(models, registry);
    MismatchesEmptyIffConsistent(models, registry);
    MismatchesBound(LocalModels(registry), IndexByUri(models).entries);
    NatToStringRoundTrip(|entries|);
  }

  // ---------------------------------------------------------------------------
  // Worked scenarios
  // ---------------------------------------------------------------------------

  lemma ScenarioLocalOnly()
    ensures Validate(true, None, [], [LocalDomain("A", "a", Some("h1"), None)]) == Some(LocalOnlyPrefix + "A")
  {
  }

  lemma ScenarioSameHash()
    ensures Validate(true, None, [DomainModel("A", "a", Some("h1"), None)], [LocalDomain("A", "a", Some("h1"), None)]) == None
  {
  }

  /** Non-strict, same URI, versions 1.0 locally and 2.0 on the server: one version entry, count 1. */
  lemma ScenarioVersion()
    ensures Validate(false, None, [DomainModel("A", "a", None, Some("2.0"))], [LocalDomain("A", "a", None, Some("1.0"))])
      == Some(DifferentReport(["A local version: 1.0 remote version: 2.0"]))
    ensures NatToString(1) == "1"
  {
    var registry := [LocalDomain("A", "a", None, Some("1.0"))];
    var models := [DomainModel("A", "a", None, Some("2.0"))];
    var dm := FromLocal(registry[0]);
    assert LocalModels(registry) == [dm];
    SingleVersionEntry(dm, models);
    VersionEntryText();
    assert Mismatches(LocalModels(registry), IndexByUri(models).entries) == ["A local version: 1.0 remote version: 2.0"];
  }

  lemma VersionEntryText()
    ensures VersionMismatch("A", "1.0", Some("2.0")) == "A local version: 1.0 remote version: 2.0"
  {
    assert Render(Some("2.0")) == "2.0";
  }

  lemma SingleVersionEntry(dm: DomainModel, models: seq<DomainModel>)
    requires dm == DomainModel("A", "a", None, Some("1.0")) && models == [DomainModel("A", "a", None, Some("2.0"))]
    ensures Mismatches([dm], IndexByUri(models).entries) == [VersionMismatch("A", "1.0", Some("2.0"))]
  {
  }

  lemma ScenarioListingError(strict: bool, models: seq<DomainModel>, registry: seq<LocalDomain>)
    ensures Validate(strict, Some("timeout"), models, registry) == Some("Error when listing server domain models: timeout")
  {
    assert ListingErrorPrefix + "timeout" == "Error when listing server domain models: timeout";
  }
}
