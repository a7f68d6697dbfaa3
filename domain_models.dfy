/**
 * Domain-model descriptors and the pure specification of the reconciliation
 * between the locally loaded domains and the ones a server lists.
 */
module DomainModels {
  import opened Wrappers
  import opened JsText

  /** One entry of the local dynamic-domain registry. */
  datatype LocalDomain = LocalDomain(
    domainURI: string,
    name: string,
    domainOWLHash: Option<string>,
    version: Option<string>)

  /** A DomainModel graph object, as the server lists it or as it is built from a registry entry. */
  datatype DomainModel = DomainModel(
    uri: string,
    name: string,
    domainOWLHash: Option<string>,
    versionInfo: Option<string>)

  /** The graph object built for a registry entry: its version label becomes `versionInfo`. */
  function FromLocal(ld: LocalDomain): DomainModel
  {
    DomainModel(ld.domainURI, ld.name, ld.domainOWLHash, ld.version)
  }

  /** The list of graph objects built from the registry, in registry order. */
  function LocalModels(registry: seq<LocalDomain>): (list: seq<DomainModel>)
    ensures |list| == |registry|
    ensures forall i :: 0 <= i < |registry| ==> list[i] == FromLocal(registry[i])
  {
    seq(|registry|, i requires 0 <= i < |registry| => FromLocal(registry[i]))
  }

  /** The URIs of the descriptors, in list order. */
  function Uris(ds: seq<DomainModel>): (us: seq<string>)
    ensures |us| == |ds|
    ensures forall i :: 0 <= i < |ds| ==> us[i] == ds[i].uri
  {
    seq(|ds|, i requires 0 <= i < |ds| => ds[i].uri)
  }

  predicate Distinct(s: seq<string>)
  {
    forall i, j :: 0 <= i < j < |s| ==> s[i] != s[j]
  }

  /** The position of the first occurrence of `x` in `s`. */
  function FirstIndex(s: seq<string>, x: string): (k: nat)
    requires x in s
    ensures k < |s| && s[k] == x && x !in s[..k]
  {
    if s[0] == x then 0 else 1 + FirstIndex(s[1..], x)
  }

  // ---------------------------------------------------------------------------
  // A JavaScript object used as a dictionary from URI to descriptor: its
  // entries, and its keys in the order Object.keys reports them (order of
  // first insertion).
  // ---------------------------------------------------------------------------

  datatype UriIndex = UriIndex(keys: seq<string>, entries: map<string, DomainModel>)

  ghost predicate WellFormed(ix: UriIndex)
  {
    Distinct(ix.keys) && forall k :: k in ix.entries <==> k in ix.keys
  }

  const EmptyIndex := UriIndex([], map[])

  /** `index[dm.URI] = dm`: a new key goes to the end of the key order; an existing one keeps its place. */
  function Put(ix: UriIndex, dm: DomainModel): UriIndex
  {
    UriIndex(
      if dm.uri in ix.entries then ix.keys else ix.keys + [dm.uri],
      ix.entries[dm.uri := dm])
  }

  /** The object obtained by storing every descriptor of `ds` under its URI, in order. */
  function IndexByUri(ds: seq<DomainModel>): UriIndex
  {
    if ds == [] then EmptyIndex else Put(IndexByUri(ds[..|ds| - 1]), ds[|ds| - 1])
  }

  lemma FirstIndexOfPrefix(s: seq<string>, y: string, x: string)
    requires x in s
    ensures x in s + [y] && FirstIndex(s + [y], x) == FirstIndex(s, x)
  {
    if s[0] != x {
      assert (s + [y])[1..] == s[1..] + [y];
      FirstIndexOfPrefix(s[1..], y, x);
    }
  }

  /** Indexing by URI keeps one key per distinct URI of `ds`, and no other. */
  lemma {:induction false} IndexByUriKeys(ds: seq<DomainModel>)
    ensures WellFormed(IndexByUri(ds))
    ensures forall k :: k in IndexByUri(ds).entries <==> k in Uris(ds)
  {
    if ds != [] {
      var n := |ds| - 1;
      IndexByUriKeys(ds[..n]);
      assert Uris(ds) == Uris(ds[..n]) + [ds[n].uri];
    }
  }

  /** `p` and `q` both occur in `us`, and `p` occurs first. */
  predicate Precedes(us: seq<string>, p: string, q: string)
  {
    p in us && q in us && FirstIndex(us, p) < FirstIndex(us, q)
  }

  /** Every key occurs in `us`, and the keys come in the order of their first occurrences in `us`. */
  ghost predicate InFirstOccurrenceOrder(keys: seq<string>, us: seq<string>)
  {
    forall a, b :: 0 <= a < b < |keys| ==> Precedes(us, keys[a], keys[b])
  }

  /** The keys come in the order in which their URIs first occur in `ds`. */
  lemma {:induction false} IndexByUriOrder(ds: seq<DomainModel>)
    ensures InFirstOccurrenceOrder(IndexByUri(ds).keys, Uris(ds))
  {
    if ds != [] {
      var n := |ds| - 1;
      var init := ds[..n];
      var last := ds[n];
      IndexByUriOrder(init);
      IndexByUriKeys(init);
      var p := IndexByUri(init);
      var ix := IndexByUri(ds);
      assert Uris(ds) == Uris(init) + [last.uri];
      forall a, b | 0 <= a < b < |ix.keys|
        ensures Precedes(Uris(ds), ix.keys[a], ix.keys[b])
      {
        assert ix.keys[a] == p.keys[a];
        FirstIndexOfPrefix(Uris(init), last.uri, ix.keys[a]);
        if b < |p.keys| {
          FirstIndexOfPrefix(Uris(init), last.uri, ix.keys[b]);
        } else {
          assert ix.keys[b] == last.uri && last.uri !in Uris(init);
          assert FirstIndex(Uris(ds), last.uri) == n;
        }
      }
      assert InFirstOccurrenceOrder(ix.keys, Uris(ds));
    }
  }

  /** A key holds the last descriptor written under it. */
  lemma {:induction false} IndexByUriLastWins(ds: seq<DomainModel>)
    ensures forall j :: 0 <= j < |ds| && ds[j].uri !in Uris(ds[j + 1..]) ==>
      ds[j].uri in IndexByUri(ds).entries && IndexByUri(ds).entries[ds[j].uri] == ds[j]
  {
    if ds != [] {
      var n := |ds| - 1;
      var init := ds[..n];
      IndexByUriLastWins(init);
      forall j | 0 <= j < |ds| && ds[j].uri !in Uris(ds[j + 1..])
        ensures ds[j].uri in IndexByUri(ds).entries && IndexByUri(ds).entries[ds[j].uri] == ds[j]
      {
        if j < n {
          assert Uris(ds[j + 1..])[n - j - 1] == ds[n].uri;
          assert init[j + 1..] == ds[j + 1..n];
          assert Uris(init[j + 1..]) == Uris(ds[j + 1..])[..n - j - 1];
        }
      }
    }
  }

  // ---------------------------------------------------------------------------
  // Ordered set difference: the `indexOf`/`splice` loops of strict mode.
  // ---------------------------------------------------------------------------

  /** `xs` with every element that also occurs in `ys` removed, order kept. */
  function Without(xs: seq<string>, ys: seq<string>): seq<string>
  {
    if xs == [] then []
    else (if xs[0] in ys then [] else [xs[0]]) + Without(xs[1..], ys)
  }

  /** The ordered difference holds exactly the elements of `xs` missing from `ys`. */
  lemma {:induction false} WithoutMembers(xs: seq<string>, ys: seq<string>)
    ensures forall x :: x in Without(xs, ys) <==> x in xs && x !in ys
  {
    if xs != [] {
      WithoutMembers(xs[1..], ys);
      assert xs == [xs[0]] + xs[1..];
    }
  }

  /** Each element of a difference over distinct elements occurs once. */
  lemma {:induction false} WithoutDistinct(xs: seq<string>, ys: seq<string>)
    requires Distinct(xs)
    ensures Distinct(Without(xs, ys))
  {
    if xs != [] {
      WithoutDistinct(xs[1..], ys);
      WithoutMembers(xs[1..], ys);
      assert xs == [xs[0]] + xs[1..];
    }
  }

  /** The ordered difference is empty exactly when every element of `xs` occurs in `ys`. */
  lemma {:induction false} WithoutEmptyIff(xs: seq<string>, ys: seq<string>)
    ensures Without(xs, ys) == [] <==> forall x :: x in xs ==> x in ys
  {
    if xs != [] {
      WithoutEmptyIff(xs[1..], ys);
      assert xs == [xs[0]] + xs[1..];
    }
  }

  /** Removing a value absent from a difference changes nothing. */
  lemma {:induction false} WithoutAbsent(xs: seq<string>, ys: seq<string>, y: string)
    requires y !in Without(xs, ys)
    ensures Without(xs, ys + [y]) == Without(xs, ys)
  {
    if xs != [] {
      WithoutAbsent(xs[1..], ys, y);
    }
  }

  lemma DistinctTail(xs: seq<string>)
    requires xs != [] && Distinct(xs)
    ensures Distinct(xs[1..]) && xs[0] !in xs[1..]
  {
  }

  /**
   * Removing one more value `y` from a difference over distinct elements
   * deletes its only occurrence and changes nothing else.
   */
  lemma {:induction false} WithoutPresent(xs: seq<string>, ys: seq<string>, y: string, k: nat)
    requires Distinct(xs)
    requires k < |Without(xs, ys)| && Without(xs, ys)[k] == y
    ensures Without(xs, ys + [y]) == Without(xs, ys)[..k] + Without(xs, ys)[k + 1..]
    decreases |xs|
  {
    DistinctTail(xs);
    if xs[0] in ys {
      assert Without(xs, ys) == Without(xs[1..], ys);
      WithoutPresent(xs[1..], ys, y, k);
    } else if k == 0 {
      WithoutHead(xs, ys, y);
    } else {
      WithoutPresent(xs[1..], ys, y, k - 1);
      WithoutPresentLater(xs, ys, y, k);
    }
  }

  /** Unfolding the difference at a head it keeps. */
  lemma WithoutKeptHead(xs: seq<string>, ys: seq<string>)
    requires xs != [] && xs[0] !in ys
    ensures Without(xs, ys) == [xs[0]] + Without(xs[1..], ys)
  {
  }

  /** The step of WithoutPresent past a kept head that is not the removed value. */
  lemma WithoutPresentLater(xs: seq<string>, ys: seq<string>, y: string, k: nat)
    requires xs != [] && xs[0] !in ys && xs[0] !in xs[1..] && 0 < k
    requires k < |Without(xs, ys)| && Without(xs, ys)[k] == y
    requires Without(xs[1..], ys + [y]) == Without(xs[1..], ys)[..k - 1] + Without(xs[1..], ys)[k..]
    ensures Without(xs, ys + [y]) == Without(xs, ys)[..k] + Without(xs, ys)[k + 1..]
  {
    var x := xs[0];
    var r := Without(xs[1..], ys);
    WithoutKeptHead(xs, ys);
    assert r[k - 1] == y;
    assert x != y by {
      WithoutMembers(xs[1..], ys);
      assert y in xs[1..];
    }
    assert x !in ys + [y];
    WithoutKeptHead(xs, ys + [y]);
    SpliceAfterHead(x, r, k);
  }

  lemma SpliceAfterHead(x: string, r: seq<string>, k: nat)
    requires 0 < k <= |r|
    ensures ([x] + r)[..k] + ([x] + r)[k + 1..] == [x] + (r[..k - 1] + r[k..])
  {
    assert ([x] + r)[..k] == [x] + r[..k - 1];
    assert ([x] + r)[k + 1..] == r[k..];
  }

  lemma WithoutHead(xs: seq<string>, ys: seq<string>, y: string)
    requires xs != [] && Distinct(xs) && xs[0] == y && y !in ys
    ensures Without(xs, ys + [y]) == Without(xs, ys)[1..]
  {
    DistinctTail(xs);
    WithoutMembers(xs[1..], ys);
    WithoutAbsent(xs[1..], ys, y);
  }

  lemma {:induction false} WithoutNothing(xs: seq<string>)
    ensures Without(xs, []) == xs
  {
    if xs != [] {
      WithoutNothing(xs[1..]);
    }
  }

  /** An ordered difference keeps the order its first operand had. */
  lemma {:induction false} WithoutKeepsOrder(xs: seq<string>, ys: seq<string>, us: seq<string>)
    requires InFirstOccurrenceOrder(xs, us)
    ensures InFirstOccurrenceOrder(Without(xs, ys), us)
  {
    if xs != [] {
      var tail := xs[1..];
      OrderOfTail(xs, tail, us);
      WithoutKeepsOrder(tail, ys, us);
      if xs[0] !in ys {
        WithoutKeptHead(xs, ys);
        WithoutMembers(tail, ys);
        OrderWithHead(xs[0], Without(tail, ys), Without(xs, ys), us, xs);
      }
    }
  }

  lemma OrderOfTail(xs: seq<string>, tail: seq<string>, us: seq<string>)
    requires xs != [] && tail == xs[1..] && InFirstOccurrenceOrder(xs, us)
    ensures InFirstOccurrenceOrder(tail, us)
  {
    forall a, b | 0 <= a < b < |tail|
      ensures Precedes(us, tail[a], tail[b])
    {
      assert tail[a] == xs[a + 1] && tail[b] == xs[b + 1];
    }
  }

  /** Putting the head of an ordered list before an ordered list of its later elements keeps the order. */
  lemma OrderWithHead(x: string, r: seq<string>, w: seq<string>, us: seq<string>, xs: seq<string>)
    requires xs != [] && xs[0] == x && InFirstOccurrenceOrder(xs, us)
    requires InFirstOccurrenceOrder(r, us) && w == [x] + r
    requires forall e :: e in r ==> e in xs[1..]
    ensures InFirstOccurrenceOrder(w, us)
  {
    forall a, b | 0 <= a < b < |w|
      ensures Precedes(us, w[a], w[b])
    {
      assert w[b] == r[b - 1];
      if a == 0 {
        assert r[b - 1] in xs[1..];
        var j :| 0 <= j < |xs[1..]| && xs[1..][j] == r[b - 1];
        assert xs[j + 1] == w[b];
      } else {
        assert w[a] == r[a - 1];
      }
    }
  }

  // ---------------------------------------------------------------------------
  // Per-descriptor comparison.
  // ---------------------------------------------------------------------------

  const HashWord := " local hash: "
  const RemoteHashWord := " remote hash: "
  const VersionWord := " local version: "
  const RemoteVersionWord := " remote version: "

  function HashMismatch(uri: string, localHash: string, remoteHash: Option<string>): string
  {
    uri + HashWord + localHash + RemoteHashWord + Render(remoteHash)
  }

  function VersionMismatch(uri: string, localVersion: string, remoteVersion: Option<string>): string
  {
    uri + VersionWord + localVersion + RemoteVersionWord + Render(remoteVersion)
  }

  /**
   * The local descriptor agrees with its server counterpart: a hash the local
   * side defines is the server's, and so is a version the local side defines.
   * An absent local value is never compared.
   */
  predicate Consistent(local: DomainModel, remote: DomainModel)
  {
    (local.domainOWLHash == None || local.domainOWLHash == remote.domainOWLHash) &&
    (local.versionInfo == None || local.versionInfo == remote.versionInfo)
  }

  /** The report entry for one local descriptor against its server counterpart: hash first, then version. */
  function Discrepancy(local: DomainModel, remote: DomainModel): (r: Option<string>)
    ensures r == None <==> Consistent(local, remote)
  {
    if local.domainOWLHash.Some? && local.domainOWLHash != remote.domainOWLHash then
      Some(HashMismatch(local.uri, local.domainOWLHash.value, remote.domainOWLHash))
    else if local.versionInfo.Some? && local.versionInfo != remote.versionInfo then
      Some(VersionMismatch(local.uri, local.versionInfo.value, remote.versionInfo))
    else
      None
  }

  /** The entries one local descriptor contributes: none when the server lacks its URI. */
  function EntriesFor(local: DomainModel, server: map<string, DomainModel>): (r: seq<string>)
    ensures |r| <= 1
    ensures r == [] <==> (local.uri in server ==> Consistent(local, server[local.uri]))
  {
    if local.uri !in server then []
    else match Discrepancy(local, server[local.uri])
      case None => []
      case Some(m) => [m]
  }

  /** The mismatch entries of a local list, in list order. */
  function Mismatches(list: seq<DomainModel>, server: map<string, DomainModel>): seq<string>
  {
    if list == [] then []
    else Mismatches(list[..|list| - 1], server) + EntriesFor(list[|list| - 1], server)
  }

  lemma {:induction false} MismatchesAppend(a: seq<DomainModel>, b: seq<DomainModel>, server: map<string, DomainModel>)
    ensures Mismatches(a + b, server) == Mismatches(a, server) + Mismatches(b, server)
    decreases |b|
  {
    if b == [] {
      assert a + b == a;
    } else {
      var n := |b| - 1;
      assert (a + b)[..|a + b| - 1] == a + b[..n];
      MismatchesAppend(a, b[..n], server);
    }
  }

  // ---------------------------------------------------------------------------
  // The whole reconciliation.
  // ---------------------------------------------------------------------------

  const ListingErrorPrefix := "Error when listing server domain models: "
  const LocalOnlyPrefix := "The following domains are loaded only locally: "
  const ServerOnlyPrefix := "The following domains are loaded only on the server: "
  const Separator := ", "

  function DifferentReport(entries: seq<string>): string
  {
    "Different domains detected [" + NatToString(|entries|) + "]: " + Join(entries, Separator)
  }

  /** A listing error counts only when it is truthy: an empty message is no error. */
  predicate IsTruthy(error: Option<string>)
  {
    error.Some? && error.value != ""
  }

  /** The local URIs the server does not list, in local key order. */
  function LocalOnly(models: seq<DomainModel>, registry: seq<LocalDomain>): seq<string>
  {
    Without(IndexByUri(LocalModels(registry)).keys, IndexByUri(models).keys)
  }

  /** The server URIs not loaded locally, in server key order. */
  function ServerOnly(models: seq<DomainModel>, registry: seq<LocalDomain>): seq<string>
  {
    Without(IndexByUri(models).keys, IndexByUri(LocalModels(registry)).keys)
  }

  /**
   * The message the callback receives, None standing for `callback(null)`.
   * `error`/`models` are what the server listing delivered, `registry` the
   * local dynamic domains, `strict` the failIfListElementsDifferent flag.
   */
  function Validate(strict: bool, error: Option<string>, models: seq<DomainModel>,
                    registry: seq<LocalDomain>): Option<string>
  {
    if IsTruthy(error) then Some(ListingErrorPrefix + error.value)
    else if strict && LocalOnly(models, registry) != [] then
      Some(LocalOnlyPrefix + Join(LocalOnly(models, registry), Separator))
    else if strict && ServerOnly(models, registry) != [] then
      Some(ServerOnlyPrefix + Join(ServerOnly(models, registry), Separator))
    else
      var entries := Mismatches(LocalModels(registry), IndexByUri(models).entries);
      if entries != [] then Some(DifferentReport(entries)) else None
  }
}
