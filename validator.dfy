/**
 * HaleyAPI.validateDomainModels as the step-by-step procedure it is: fill
 * the two URI dictionaries, strip one key list of the other's keys with
 * indexOf/splice, then walk the local list collecting mismatch entries.
 */
module Validator {
  import opened Wrappers
  import opened JsText
  import opened DomainModels

  /** `s.indexOf(x)`: the first position holding `x`, or -1. */
  method IndexOf(s: seq<string>, x: string) returns (index: int)
    ensures -1 <= index < |s|
    ensures index == -1 <==> x !in s
    ensures index >= 0 ==> s[index] == x && x !in s[..index]
  {
    var i := 0;
    while i < |s|
      invariant 0 <= i <= |s|
      invariant x !in s[..i]
    {
      if s[i] == x {
        return i;
      }
      assert s[..i + 1] == s[..i] + [s[i]];
      i := i + 1;
    }
    assert s[..i] == s;
    return -1;
  }

  /**
   * The `removeAll` loop: for each element of `toRemove`, splice its first
   * occurrence out of a copy of `keys`. Keys of a JavaScript object are
   * distinct, which is what makes one splice per element enough.
   */
  method RemoveAll(keys: seq<string>, toRemove: seq<string>) returns (rest: seq<string>)
    requires Distinct(keys)
    ensures rest == Without(keys, toRemove)
  {
    rest := keys;
    assert Without(keys, []) == keys by { WithoutNothing(keys); }
    var i := 0;
    while i < |toRemove|
      invariant 0 <= i <= |toRemove|
      invariant rest == Without(keys, toRemove[..i])
    {
      var su := toRemove[i];
      var index := IndexOf(rest, su);
      assert toRemove[..i + 1] == toRemove[..i] + [su];
      if index >= 0 {
        WithoutPresent(keys, toRemove[..i], su, index);
        rest := rest[..index] + rest[index + 1..];
      } else {
        WithoutAbsent(keys, toRemove[..i], su);
      }
      i := i + 1;
    }
    assert toRemove[..i] == toRemove;
  }

  /** The loop filling `serverDomains` from the listing. */
  method IndexModels(models: seq<DomainModel>) returns (serverKeys: seq<string>, serverDomains: map<string, DomainModel>)
    ensures UriIndex(serverKeys, serverDomains) == IndexByUri(models)
  {
    serverKeys, serverDomains := [], map[];
    var i := 0;
    while i < |models|
      invariant 0 <= i <= |models|
      invariant UriIndex(serverKeys, serverDomains) == IndexByUri(models[..i])
    {
      var dm := models[i];
      assert models[..i + 1][..i] == models[..i];
      if dm.uri !in serverDomains {
        serverKeys := serverKeys + [dm.uri];
      }
      serverDomains := serverDomains[dm.uri := dm];
      i := i + 1;
    }
    assert models[..i] == models;
  }

  /** The loop building a graph object per registry entry into `localDomains` and `localDomainsList`. */
  method LoadLocalDomains(registry: seq<LocalDomain>)
    returns (localKeys: seq<string>, localDomains: map<string, DomainModel>, localDomainsList: seq<DomainModel>)
    ensures localDomainsList == LocalModels(registry)
    ensures UriIndex(localKeys, localDomains) == IndexByUri(localDomainsList)
  {
    localKeys, localDomains, localDomainsList := [], map[], [];
    var i := 0;
    while i < |registry|
      invariant 0 <= i <= |registry|
      invariant localDomainsList == LocalModels(registry[..i])
      invariant UriIndex(localKeys, localDomains) == IndexByUri(localDomainsList)
    {
      var dm := FromLocal(registry[i]);
      assert (localDomainsList + [dm])[..|localDomainsList|] == localDomainsList;
      if dm.uri !in localDomains {
        localKeys := localKeys + [dm.uri];
      }
      localDomains := localDomains[dm.uri := dm];
      localDomainsList := localDomainsList + [dm];
      i := i + 1;
    }
    assert registry[..i] == registry;
  }

  /**
   * The comparison loop over `localDomainsList`. Outside strict mode a
   * descriptor the server lacks is skipped; in strict mode the caller has
   * shown that the server has every local URI.
   */
  method CollectDifferences(strict: bool, localDomainsList: seq<DomainModel>, serverDomains: map<string, DomainModel>)
    returns (differentDomains: seq<string>)
    requires strict ==> forall i :: 0 <= i < |localDomainsList| ==> localDomainsList[i].uri in serverDomains
    ensures differentDomains == Mismatches(localDomainsList, serverDomains)
  {
    differentDomains := [];
    var i := 0;
    while i < |localDomainsList|
      invariant 0 <= i <= |localDomainsList|
      invariant differentDomains == Mismatches(localDomainsList[..i], serverDomains)
    {
      var localDomain := localDomainsList[i];
      assert localDomainsList[..i + 1][..i] == localDomainsList[..i];
      if !strict && localDomain.uri !in serverDomains {
        i := i + 1;
        continue;
      }
      var serverDomain := serverDomains[localDomain.uri];
      var hash1 := localDomain.domainOWLHash;
      var hash2 := serverDomain.domainOWLHash;
      var v1 := localDomain.versionInfo;
      var v2 := serverDomain.versionInfo;
      if hash1.Some? && hash1 != hash2 {
        differentDomains := differentDomains + [HashMismatch(localDomain.uri, hash1.value, hash2)];
      } else if v1.Some? && v1 != v2 {
        differentDomains := differentDomains + [VersionMismatch(localDomain.uri, v1.value, v2)];
      }
      i := i + 1;
    }
    assert localDomainsList[..i] == localDomainsList;
  }

  /**
   * The callback's argument for one run: `error`/`models` stand for what the
   * server listing delivered, `registry` for the local dynamic domains,
   * `strict` for failIfListElementsDifferent; None stands for `callback(null)`.
   */
  method ValidateDomainModels(strict: bool, error: Option<string>, models: seq<DomainModel>,
                              registry: seq<LocalDomain>) returns (result: Option<string>)
    ensures result == Validate(strict, error, models, registry)
  {
    if IsTruthy(error) {
      return Some(ListingErrorPrefix + error.value);
    }

    var serverKeys, serverDomains := IndexModels(models);
    var localKeys, localDomains, localDomainsList := LoadLocalDomains(registry);
    IndexByUriKeys(models);
    IndexByUriKeys(localDomainsList);

    if strict {
      var localURIs := RemoveAll(localKeys, serverKeys);
      if |localURIs| > 0 {
        return Some(LocalOnlyPrefix + Join(localURIs, Separator));
      }
      var serverURIs := RemoveAll(serverKeys, localKeys);
      if |serverURIs| > 0 {
        return Some(ServerOnlyPrefix + Join(serverURIs, Separator));
      }
      // every local URI is a server key, so the lookup in the loop never yields null
      WithoutMembers(localKeys, serverKeys);
      assert forall k :: 0 <= k < |localDomainsList| ==> localDomainsList[k].uri in Uris(localDomainsList);
    }

    var differentDomains := CollectDifferences(strict, localDomainsList, serverDomains);
    if |differentDomains| > 0 {
      return Some(DifferentReport(differentDomains));
    }
    return None;
  }
}
