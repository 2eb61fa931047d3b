/** The analysis input that travels through a run, and how node outputs are merged back into it. */
module AnalysisInput {
  import opened Wrappers
  import opened Sequences
  import opened Ordering

  datatype PackageInfo = PackageInfo(ecosystem: string, name: string, version: string, isPrivate: bool)

  /** The fields that merging never touches. */
  datatype Identity = Identity(
    analysisIdentifier: string, commit: Option<string>, version: Option<string>,
    trusted: bool, overridesHash: string, noFetch: bool, writeFetchOnly: bool)

  datatype InputValue = InputValue(
    identity: Identity, sourceURL: Option<string>, sourceDirectory: Option<string>, packages: seq<PackageInfo>)

  /** What a mergeable output offers to the nodes downstream. */
  datatype Offer = Offer(sourceURL: Option<string>, sourceDirectory: Option<string>, packages: seq<PackageInfo>)

  // ---- The order of packages, which ignores the private flag

  predicate PackageLe(a: PackageInfo, b: PackageInfo) {
    if a.ecosystem != b.ecosystem then StrLe(a.ecosystem, b.ecosystem)
    else if a.name != b.name then StrLe(a.name, b.name)
    else StrLe(a.version, b.version)
  }

  predicate SameButPrivate(a: PackageInfo, b: PackageInfo) {
    a.(isPrivate := false) == b.(isPrivate := false)
  }

  lemma PackageLeTotal(a: PackageInfo, b: PackageInfo)
    ensures PackageLe(a, b) || PackageLe(b, a)
    ensures PackageLe(a, b) && PackageLe(b, a) ==> SameButPrivate(a, b)
  {
    StrLeTotal(a.ecosystem, b.ecosystem);
    StrLeTotal(a.name, b.name);
    StrLeTotal(a.version, b.version);
    if PackageLe(a, b) && PackageLe(b, a) {
      if a.ecosystem != b.ecosystem { StrLeAntisymmetric(a.ecosystem, b.ecosystem); }
      if a.name != b.name { StrLeAntisymmetric(a.name, b.name); }
      StrLeAntisymmetric(a.version, b.version);
    }
  }

  lemma PackageLeTransitive(a: PackageInfo, b: PackageInfo, c: PackageInfo)
    requires PackageLe(a, b) && PackageLe(b, c)
    ensures PackageLe(a, c)
  {
    if StrLe(a.ecosystem, b.ecosystem) && StrLe(b.ecosystem, c.ecosystem) { StrLeTransitive(a.ecosystem, b.ecosystem, c.ecosystem); }
    if StrLe(b.ecosystem, a.ecosystem) && StrLe(a.ecosystem, b.ecosystem) { StrLeAntisymmetric(a.ecosystem, b.ecosystem); }
    if StrLe(a.name, b.name) && StrLe(b.name, a.name) { StrLeAntisymmetric(a.name, b.name); }
    if StrLe(a.name, b.name) && StrLe(b.name, c.name) { StrLeTransitive(a.name, b.name, c.name); }
    if StrLe(a.version, b.version) && StrLe(b.version, c.version) { StrLeTransitive(a.version, b.version, c.version); }
  }

  lemma PackageLeIsTotalPreorder()
    ensures TotalPreorder(PackageLe)
  {
    forall x, y ensures PackageLe(x, y) || PackageLe(y, x) { PackageLeTotal(x, y); }
    forall x, y, z | PackageLe(x, y) && PackageLe(y, z) ensures PackageLe(x, z) { PackageLeTransitive(x, y, z); }
  }

  /** Packages are sorted by ecosystem, then name, then version. */
  lemma PackageOrder(s: seq<PackageInfo>, i: nat, j: nat)
    requires SortedBy(s, PackageLe) && i < j < |s|
    ensures StrLe(s[i].ecosystem, s[j].ecosystem)
    ensures s[i].ecosystem == s[j].ecosystem ==> StrLe(s[i].name, s[j].name)
    ensures s[i].ecosystem == s[j].ecosystem && s[i].name == s[j].name ==> StrLe(s[i].version, s[j].version)
  {
    assert PackageLe(s[i], s[j]);
    StrLeTotal(s[i].ecosystem, s[i].ecosystem);
    StrLeTotal(s[i].name, s[i].name);
    hide StrLe;
  }

  ghost predicate SameListButPrivate(a: seq<PackageInfo>, b: seq<PackageInfo>) {
    |a| == |b| && forall i :: 0 <= i < |a| ==> SameButPrivate(a[i], b[i])
  }

  // ---- Sorted lists with the same contents

  function Public(s: seq<PackageInfo>): seq<PackageInfo> {
    seq(|s|, i requires 0 <= i < |s| => s[i].(isPrivate := false))
  }

  lemma {:induction false} PublicCount(s: seq<PackageInfo>, p: PackageInfo)
    ensures multiset(Public(s))[p] == if p.isPrivate then 0 else multiset(s)[p] + multiset(s)[p.(isPrivate := true)]
  {
    if s != [] {
      PublicCount(s[1..], p);
      assert Public(s)[1..] == Public(s[1..]);
      HeadContents(s);
      HeadContents(Public(s));
    }
  }

  lemma PublicContents(a: seq<PackageInfo>, b: seq<PackageInfo>)
    requires multiset(a) == multiset(b)
    ensures multiset(Public(a)) == multiset(Public(b))
  {
    forall p ensures multiset(Public(a))[p] == multiset(Public(b))[p] {
      PublicCount(a, p);
      PublicCount(b, p);
    }
  }

  lemma PublicSorted(s: seq<PackageInfo>)
    requires SortedBy(s, PackageLe)
    ensures SortedBy(Public(s), PackageLe)
  {
    forall i, j | 0 <= i < j < |s| ensures PackageLe(Public(s)[i], Public(s)[j]) {
      assert PackageLe(s[i], s[j]);
    }
  }

  lemma SortedSameButPrivate(a: seq<PackageInfo>, b: seq<PackageInfo>)
    requires multiset(a) == multiset(b) && SortedBy(a, PackageLe) && SortedBy(b, PackageLe)
    ensures SameListButPrivate(a, b)
  {
    hide PackageLe;
    PublicContents(a, b);
    MultisetMembers(a, b);
    var p, q := Public(a), Public(b);
    PublicSorted(a);
    PublicSorted(b);
    forall i, j | 0 <= i < |p| && 0 <= j < |p| && PackageLe(p[i], p[j]) && PackageLe(p[j], p[i]) ensures p[i] == p[j] {
      PackageLeTotal(p[i], p[j]);
    }
    SortedUnique(p, q, PackageLe);
    forall i | 0 <= i < |a| ensures SameButPrivate(a[i], b[i]) {
      assert p[i] == q[i];
    }
  }

  // ---- Merging, said without reference to an order of the offers

  predicate Present(s: Option<string>) {
    s.Some? && s.value != ""
  }

  ghost function OfferedURLs(offers: set<Offer>): set<string> {
    set o | o in offers && Present(o.sourceURL) :: o.sourceURL.value
  }

  ghost function OfferedDirectories(offers: set<Offer>): set<string> {
    set o | o in offers && Present(o.sourceDirectory) :: o.sourceDirectory.value
  }

  ghost function OfferedPackages(offers: set<Offer>): set<PackageInfo> {
    set o, p | o in offers && p in o.packages :: p
  }

  /** A field that is filled once: a present value stays, an absent one takes some offered value. */
  ghost predicate SetOnce(base: Option<string>, choices: set<string>, result: Option<string>) {
    if Present(base) || choices == {} then result == base
    else result.Some? && result.value in choices
  }

  ghost predicate PackagesMerged(base: seq<PackageInfo>, offered: set<PackageInfo>, result: seq<PackageInfo>) {
    && multiset(result) == multiset(base) + multiset(offered - Elements(base))
    && (if offered == {} then result == base else SortedBy(result, PackageLe))
  }

  ghost predicate MergeOf(base: InputValue, offers: set<Offer>, result: InputValue) {
    && result.identity == base.identity
    && SetOnce(base.sourceURL, OfferedURLs(offers), result.sourceURL)
    && SetOnce(base.sourceDirectory, OfferedDirectories(offers), result.sourceDirectory)
    && PackagesMerged(base.packages, OfferedPackages(offers), result.packages)
  }

  lemma SingleOffer(o: Offer)
    ensures OfferedURLs({o}) == if Present(o.sourceURL) then {o.sourceURL.value} else {}
    ensures OfferedDirectories({o}) == if Present(o.sourceDirectory) then {o.sourceDirectory.value} else {}
    ensures OfferedPackages({o}) == Elements(o.packages)
    ensures OfferedPackages({o}) == {} <==> o.packages == []
  {
    assert forall p :: p in o.packages ==> o in {o} && p in OfferedPackages({o});
    assert o.packages != [] ==> o.packages[0] in Elements(o.packages);
  }

  lemma MergeNothing(base: InputValue)
    ensures MergeOf(base, {}, base)
  {
    assert OfferedPackages({}) == {};
  }

  lemma PackagesMergedAppend(base: seq<PackageInfo>, first: set<PackageInfo>, mid: seq<PackageInfo>, next: set<PackageInfo>, result: seq<PackageInfo>)
    requires PackagesMerged(base, first, mid) && PackagesMerged(mid, next, result)
    ensures PackagesMerged(base, first + next, result)
  {
    var b, m := Elements(base), Elements(mid);
    forall p ensures p in m <==> p in b + first {
      assert p in mid <==> p in multiset(mid);
      assert p in base <==> p in multiset(base);
    }
    assert m == b + first;
    assert multiset(first - b) + multiset(next - m) == multiset((first + next) - b) by {
      assert next - m == (next - b) - first;
      assert (first + next) - b == (first - b) + (next - m);
    }
  }

  lemma SetOnceAppend(base: Option<string>, first: set<string>, mid: Option<string>, next: set<string>, result: Option<string>)
    requires SetOnce(base, first, mid) && SetOnce(mid, next, result) && "" !in first
    ensures SetOnce(base, first + next, result)
  {}

  lemma OfferedUnion(a: set<Offer>, b: set<Offer>)
    ensures OfferedURLs(a + b) == OfferedURLs(a) + OfferedURLs(b)
    ensures OfferedDirectories(a + b) == OfferedDirectories(a) + OfferedDirectories(b)
    ensures OfferedPackages(a + b) == OfferedPackages(a) + OfferedPackages(b)
  {}

  /** Merging one more offer into a merge of some offers is a merge of all of them. */
  lemma MergeOfAppend(base: InputValue, offers: set<Offer>, mid: InputValue, o: Offer, result: InputValue)
    requires MergeOf(base, offers, mid) && MergeOf(mid, {o}, result)
    ensures MergeOf(base, offers + {o}, result)
  {
    hide SetOnce, PackagesMerged;
    OfferedUnion(offers, {o});
    SetOnceAppend(base.sourceURL, OfferedURLs(offers), mid.sourceURL, OfferedURLs({o}), result.sourceURL);
    SetOnceAppend(base.sourceDirectory, OfferedDirectories(offers), mid.sourceDirectory, OfferedDirectories({o}), result.sourceDirectory);
    PackagesMergedAppend(base.packages, OfferedPackages(offers), mid.packages, OfferedPackages({o}), result.packages);
  }

  /** Equal inputs, up to the order of packages that differ only in their private flag. */
  ghost predicate SameInput(a: InputValue, b: InputValue) {
    && a.identity == b.identity && a.sourceURL == b.sourceURL && a.sourceDirectory == b.sourceDirectory
    && multiset(a.packages) == multiset(b.packages) && SameListButPrivate(a.packages, b.packages)
  }

  /** No two offers fill an absent field differently. */
  ghost predicate OffersAgree(base: InputValue, offers: set<Offer>) {
    && (Present(base.sourceURL) || forall u, v :: u in OfferedURLs(offers) && v in OfferedURLs(offers) ==> u == v)
    && (Present(base.sourceDirectory) ||
        forall u, v :: u in OfferedDirectories(offers) && v in OfferedDirectories(offers) ==> u == v)
  }

  /** When the offers agree, the order in which they are merged and the ties of the unstable sort do not matter. */
  lemma MergeUnique(a: InputValue, b: InputValue, offers: set<Offer>, r: InputValue, s: InputValue)
    requires SameInput(a, b) && OffersAgree(a, offers)
    requires MergeOf(a, offers, r) && MergeOf(b, offers, s)
    ensures SameInput(r, s)
  {
    MultisetMembers(a.packages, b.packages);
    assert Elements(a.packages) == Elements(b.packages);
    if OfferedPackages(offers) != {} {
      SortedSameButPrivate(r.packages, s.packages);
    }
  }

  // ---- The mutable input of a run

  method SortPackages(packages: seq<PackageInfo>) returns (sorted: seq<PackageInfo>)
    ensures multiset(sorted) == multiset(packages) && SortedBy(sorted, PackageLe)
  {
    PackageLeIsTotalPreorder();
    SortContents(packages, PackageLe);
    SortSorts(packages, PackageLe);
    sorted := Sort(packages, PackageLe);
  }

  class Input {
    const identity: Identity
    var sourceURL: Option<string>
    var sourceDirectory: Option<string>
    var packages: seq<PackageInfo>

    constructor (v: InputValue)
      ensures Value() == v
    {
      identity := v.identity;
      sourceURL, sourceDirectory, packages := v.sourceURL, v.sourceDirectory, v.packages;
    }

    function Value(): InputValue
      reads this
    {
      InputValue(identity, sourceURL, sourceDirectory, packages)
    }

    method Merge(output: Option<Offer>)
      modifies this
      ensures output.None? ==> Value() == old(Value())
      ensures output.Some? ==> MergeOf(old(Value()), {output.value}, Value())
    {
      if output.None? {
        return;
      }
      var offer := output.value;
      if Present(offer.sourceURL) && !Present(sourceURL) {
        sourceURL := offer.sourceURL;
      }
      if Present(offer.sourceDirectory) && !Present(sourceDirectory) {
        sourceDirectory := offer.sourceDirectory;
      }
      SingleOffer(offer);
      if |offer.packages| > 0 {
        AppendPackages(offer.packages);
        packages := SortPackages(packages);
      }
    }

    method AppendPackages(offered: seq<PackageInfo>)
      modifies this`packages
      ensures multiset(packages) == multiset(old(packages)) + multiset(Elements(offered) - Elements(old(packages)))
    {
      ghost var base := Elements(packages);
      var seen := set p | p in packages;
      assert seen == base && Elements(offered[..0]) == {};
      hide Elements;
      for i := 0 to |offered|
        invariant seen == base + Elements(offered[..i])
        invariant multiset(packages) == multiset(old(packages)) + multiset(Elements(offered[..i]) - base)
      {
        var pkg := offered[i];
        OneMoreOffered(base, offered, i);
        if pkg !in seen {
          packages := packages + [pkg];
          seen := seen + {pkg};
        }
      }
      assert offered[..|offered|] == offered;
    }
  }

  lemma OneMoreOffered(base: set<PackageInfo>, offered: seq<PackageInfo>, i: nat)
    requires i < |offered|
    ensures Elements(offered[..i + 1]) == Elements(offered[..i]) + {offered[i]}
    ensures var added := Elements(offered[..i]) - base;
      multiset(Elements(offered[..i + 1]) - base) ==
        if offered[i] in base + Elements(offered[..i]) then multiset(added) else multiset(added) + multiset{offered[i]}
  {
    var added := Elements(offered[..i]) - base;
    assert offered[..i + 1] == offered[..i] + [offered[i]];
    if offered[i] in base + Elements(offered[..i]) {
      assert Elements(offered[..i + 1]) - base == added;
    } else {
      assert Elements(offered[..i + 1]) - base == added + {offered[i]};
    }
  }

  // ---- Exactly when the order of merging matters

  /** A deterministic merge, one of those `MergeOf` allows. */
  ghost function Merged(base: InputValue, o: Offer): (r: InputValue)
    ensures MergeOf(base, {o}, r)
    ensures r.sourceURL == if !Present(base.sourceURL) && Present(o.sourceURL) then o.sourceURL else base.sourceURL
    ensures r.sourceDirectory ==
      if !Present(base.sourceDirectory) && Present(o.sourceDirectory) then o.sourceDirectory else base.sourceDirectory
  {
    hide PackagesMerged, MergedPackages;
    SingleOffer(o);
    InputValue(base.identity,
               if !Present(base.sourceURL) && Present(o.sourceURL) then o.sourceURL else base.sourceURL,
               if !Present(base.sourceDirectory) && Present(o.sourceDirectory) then o.sourceDirectory else base.sourceDirectory,
               MergedPackages(base.packages, o.packages))
  }

  ghost function MergedPackages(base: seq<PackageInfo>, offered: seq<PackageInfo>): (r: seq<PackageInfo>)
    ensures PackagesMerged(base, Elements(offered), r)
  {
    var added := Elements(offered) - Elements(base);
    var all := base + Listed(added);
    PackageLeIsTotalPreorder();
    SortContents(all, PackageLe);
    SortSorts(all, PackageLe);
    hide PackageLe, Sort;
    assert offered != [] ==> offered[0] in Elements(offered);
    if offered == [] then base else Sort(all, PackageLe)
  }

  ghost function MergedInOrder(base: InputValue, order: seq<Offer>): InputValue {
    if order == [] then base else Merged(MergedInOrder(base, order[..|order| - 1]), order[|order| - 1])
  }

  lemma {:induction false} MergedInOrderIsMerge(base: InputValue, order: seq<Offer>)
    ensures MergeOf(base, Elements(order), MergedInOrder(base, order))
  {
    if order == [] {
      MergeNothing(base);
      assert Elements(order) == {};
    } else {
      var init, last := order[..|order| - 1], order[|order| - 1];
      MergedInOrderIsMerge(base, init);
      assert order == init + [last];
      assert Elements(order) == Elements(init) + {last};
      MergeOfAppend(base, Elements(init), MergedInOrder(base, init), last, MergedInOrder(base, order));
    }
  }

  lemma {:induction false} FirstOfferWins(base: InputValue, first: Offer, rest: seq<Offer>)
    ensures !Present(base.sourceURL) && Present(first.sourceURL) ==>
      MergedInOrder(base, [first] + rest).sourceURL == first.sourceURL
    ensures !Present(base.sourceDirectory) && Present(first.sourceDirectory) ==>
      MergedInOrder(base, [first] + rest).sourceDirectory == first.sourceDirectory
    decreases |rest|
  {
    hide MergeOf, MergedPackages, Present;
    var order := [first] + rest;
    if rest == [] {
      assert order[..|order| - 1] == [];
    } else {
      assert order[..|order| - 1] == [first] + rest[..|rest| - 1];
      FirstOfferWins(base, first, rest[..|rest| - 1]);
    }
  }

  ghost predicate OrderIrrelevant(base: InputValue, offers: seq<Offer>) {
    forall p, q :: multiset(p) == multiset(q) == multiset(offers) ==> SameInput(MergedInOrder(base, p), MergedInOrder(base, q))
  }

  /** Merging a list of offers gives the same input in every order exactly when the offers agree. */
  lemma OrderIrrelevantIffOffersAgree(base: InputValue, offers: seq<Offer>)
    ensures OrderIrrelevant(base, offers) <==> OffersAgree(base, Elements(offers))
  {
    hide MergeOf, MergedInOrder, SameInput;
    var all := Elements(offers);
    if OffersAgree(base, all) {
      forall p, q | multiset(p) == multiset(q) == multiset(offers)
        ensures SameInput(MergedInOrder(base, p), MergedInOrder(base, q))
      {
        MultisetMembers(p, offers);
        MultisetMembers(q, offers);
        assert Elements(p) == all == Elements(q);
        MergedInOrderIsMerge(base, p);
        MergedInOrderIsMerge(base, q);
        MergeUnique(base, base, all, MergedInOrder(base, p), MergedInOrder(base, q));
      }
    } else {
      var a, b :| a in offers && b in offers
        && ((!Present(base.sourceURL) && Present(a.sourceURL) && Present(b.sourceURL) && a.sourceURL != b.sourceURL)
            || (!Present(base.sourceDirectory) && Present(a.sourceDirectory) && Present(b.sourceDirectory)
                && a.sourceDirectory != b.sourceDirectory));
      var p := BringForward(offers, a);
      var q := BringForward(offers, b);
      FirstOfferWins(base, a, p);
      FirstOfferWins(base, b, q);
      DifferentInputs(MergedInOrder(base, [a] + p), MergedInOrder(base, [b] + q));
    }
  }

  lemma DifferentInputs(a: InputValue, b: InputValue)
    requires a.sourceURL != b.sourceURL || a.sourceDirectory != b.sourceDirectory
    ensures !SameInput(a, b)
  {}

  lemma BringForward(offers: seq<Offer>, o: Offer) returns (rest: seq<Offer>)
    requires o in offers
    ensures multiset([o] + rest) == multiset(offers)
  {
    var i :| 0 <= i < |offers| && offers[i] == o;
    rest := offers[..i] + offers[i + 1..];
    assert offers == offers[..i] + [o] + offers[i + 1..];
  }
}
