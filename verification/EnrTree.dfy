/**
  EIP-1459 node lists over DNS: walking the `e` subtree of a signed root through
  a resolver that may omit, lie or answer in circles.
 */
module EnrTree {
  import opened Common
  import opened Text
  import opened TreeWalk

  const MAX_RECORDS: nat := 5000

  datatype DnsError = BadUrl | BadRoot | BadSignature | Unresolved

  datatype EnrTreeLink = EnrTreeLink(pubkey: seq<Byte>, domain: string)

  type Resolver = string -> Result<seq<string>, DnsError>

  /** The foreign parts: URL decoding, the root's signature check, the record
      hash, and ENR parsing. */
  datatype Crypto = Crypto(
    parseLink: string -> Result<EnrTreeLink, DnsError>,
    verifyRoot: (string, seq<Byte>) -> Result<string, DnsError>,
    subdomainHash: string -> string,
    parseEnr: string -> Option<Enr>)

  /** A tree as seen through one resolver. */
  datatype Tree = Tree(crypto: Crypto, resolver: Resolver, domain: string)

  // ----- Records

  const BRANCH := "enrtree-branch:"

  /** The record served under a hash, if it hashes to it. */
  function Content(tree: Tree, hash: string): Option<string> {
    match tree.resolver(hash + "." + tree.domain)
    case Err(_) => None
    case Ok(records) =>
      if records != [] && tree.crypto.subdomainHash(records[0]) == hash then Some(records[0]) else None
  }

  function NonEmptyTrimmed(parts: seq<string>): (hs: seq<string>)
    ensures "" !in hs
  {
    if parts == [] then []
    else if Trim(parts[0]) == "" then NonEmptyTrimmed(parts[1..])
    else [Trim(parts[0])] + NonEmptyTrimmed(parts[1..])
  }

  function ChildrenIn(content: string): (hs: seq<string>)
    ensures "" !in hs
  {
    if BRANCH <= content then NonEmptyTrimmed(Split(content[|BRANCH|..], ',')) else []
  }

  function LeafIn(crypto: Crypto, content: string): seq<Enr> {
    if BRANCH <= content || !("enr:" <= content) then []
    else
      match crypto.parseEnr(content)
      case Some(enr) => [enr]
      case None => []
  }

  /** A record that is missing or does not hash to its name counts for nothing. */
  function Read(tree: Tree, hash: string): (node: Node)
    ensures "" !in node.children
  {
    match Content(tree, hash)
    case Some(content) => Node(ChildrenIn(content), LeafIn(tree.crypto, content))
    case None => Node([], [])
  }

  // ----- The walk

  function ReaderOf(tree: Tree): Reader {
    hash => Read(tree, hash)
  }

  /** The ENRs of a tree below a root hash. */
  function EnrsOf(tree: Tree, root: string): seq<Enr> {
    Leaves(ReaderOf(tree), Fetches(ReaderOf(tree), [root], {}, MAX_RECORDS))
  }

  function FindRoot(records: seq<string>): Option<string> {
    if records == [] then None
    else if "enrtree-root:v1" <= records[0] then Some(records[0])
    else FindRoot(records[1..])
  }

  /** The signed root of a tree: the domain and the hash its ENR subtree starts at. */
  function RootOf(crypto: Crypto, resolver: Resolver, url: string): Result<(string, string), DnsError> {
    match crypto.parseLink(url)
    case Err(e) => Err(e)
    case Ok(link) =>
      match resolver(link.domain)
      case Err(e) => Err(e)
      case Ok(records) =>
        match FindRoot(records)
        case None => Err(BadRoot)
        case Some(record) =>
          match crypto.verifyRoot(record, link.pubkey)
          case Err(e) => Err(e)
          case Ok(hash) => Ok((link.domain, hash))
  }

  method Resolve(crypto: Crypto, resolver: Resolver, url: string) returns (r: Result<seq<Enr>, DnsError>)
    ensures r == match RootOf(crypto, resolver, url)
                 case Err(e) => Err(e)
                 case Ok((domain, root)) => Ok(EnrsOf(Tree(crypto, resolver, domain), root))
  {
    var start := RootOf(crypto, resolver, url);
    if start.Err? {
      return Err(start.error);
    }
    var (domain, root) := start.value;
    var enrs := Walk(ReaderOf(Tree(crypto, resolver, domain)), root, MAX_RECORDS);
    return Ok(enrs);
  }

  /** A hash as it can stand in a branch record. */
  predicate Plain(hash: string) {
    hash != "" && ',' !in hash && forall c :: c in hash ==> !IsWhitespace(c)
  }

  lemma PlainIsTrimmed(hash: string)
    requires Plain(hash)
    ensures Trim(hash) == hash
  {
    assert hash[0] in hash && hash[|hash| - 1] in hash;
  }

  lemma {:induction false} PlainSurvives(hashes: seq<string>)
    requires forall h :: h in hashes ==> Plain(h)
    ensures NonEmptyTrimmed(hashes) == hashes
  {
    if hashes != [] {
      PlainIsTrimmed(hashes[0]);
      PlainSurvives(hashes[1..]);
      assert hashes == [hashes[0]] + hashes[1..];
    }
  }

  /** A published branch reads back as the hashes it lists, in order. */
  lemma BranchRoundTrip(hashes: seq<string>)
    requires hashes != [] && forall h :: h in hashes ==> Plain(h)
    ensures ChildrenIn("enrtree-branch:" + Join(hashes, ',')) == hashes
  {
    var content := BRANCH + Join(hashes, ',');
    assert content[|BRANCH|..] == Join(hashes, ',');
    SplitJoin(hashes, ',');
    PlainSurvives(hashes);
  }

  /** The part between two commas of a branch record holds the hash and whitespace. */
  ghost predicate Holds(part: string, hash: string) {
    exists left, right :: Blank(left) && Blank(right) && Tight(hash) && part == left + hash + right
  }

  function NonEmpty(hashes: seq<string>): seq<string> {
    if hashes == [] then []
    else (if hashes[0] == "" then [] else [hashes[0]]) + NonEmpty(hashes[1..])
  }

  lemma {:induction false} PartsAreTrimmed(parts: seq<string>, hashes: seq<string>)
    requires |parts| == |hashes| && forall i :: 0 <= i < |parts| ==> Holds(parts[i], hashes[i])
    ensures NonEmptyTrimmed(parts) == NonEmpty(hashes)
  {
    if parts != [] {
      assert Holds(parts[0], hashes[0]);
      var left, right :| Blank(left) && Blank(right) && Tight(hashes[0]) && parts[0] == left + hashes[0] + right;
      TrimPadded(left, hashes[0], right);
      PartsAreTrimmed(parts[1..], hashes[1..]);
    }
  }

  /** Whitespace around the hashes of a branch and empty parts do not matter. */
  lemma BranchReads(parts: seq<string>, hashes: seq<string>)
    requires |parts| == |hashes| >= 1
    requires forall i :: 0 <= i < |parts| ==> Holds(parts[i], hashes[i]) && ',' !in parts[i]
    ensures ChildrenIn("enrtree-branch:" + Join(parts, ',')) == NonEmpty(hashes)
  {
    var content := BRANCH + Join(parts, ',');
    assert content[|BRANCH|..] == Join(parts, ',');
    SplitJoin(parts, ',');
    PartsAreTrimmed(parts, hashes);
  }

  /** The resolver serves, under hash h, a record that hashes to h, starts with "enr:"
      and parses to e. */
  ghost predicate Publishes(tree: Tree, h: string, e: Enr) {
    match tree.resolver(h + "." + tree.domain)
    case Err(_) => false
    case Ok(records) =>
      && records != []
      && tree.crypto.subdomainHash(records[0]) == h
      && "enr:" <= records[0]
      && tree.crypto.parseEnr(records[0]) == Some(e)
  }

  lemma ReadsPublished(tree: Tree, h: string, e: Enr)
    ensures multiset(ReaderOf(tree)(h).enrs)[e] == if Publishes(tree, h, e) then 1 else 0
  {
    var content := Content(tree, h);
    if content.Some? && "enr:" <= content.value {
      assert content.value[3] == ':' && BRANCH[3] == 't';
    }
  }

  ghost function Publishers(tree: Tree, hashes: seq<string>, e: Enr): set<string> {
    set h | h in hashes && Publishes(tree, h, e)
  }

  lemma OneMorePublisher(tree: Tree, h: string, rest: seq<string>, e: Enr)
    requires h !in rest
    ensures |Publishers(tree, [h] + rest, e)| == |Publishers(tree, rest, e)| + if Publishes(tree, h, e) then 1 else 0
  {
    var more := if Publishes(tree, h, e) then {h} else {};
    assert Publishers(tree, [h] + rest, e) == Publishers(tree, rest, e) + more;
  }

  lemma {:induction false} LeavesCount(tree: Tree, hashes: seq<string>, e: Enr)
    requires Distinct(hashes)
    ensures multiset(Leaves(ReaderOf(tree), hashes))[e] == |Publishers(tree, hashes, e)|
  {
    if hashes == [] {
      assert Publishers(tree, hashes, e) == {};
    } else {
      var read, h, rest := ReaderOf(tree), hashes[0], hashes[1..];
      assert hashes == [h] + rest && h !in rest;
      LeavesCount(tree, rest, e);
      ReadsPublished(tree, h, e);
      OneMorePublisher(tree, h, rest, e);
      LeavesCons(read, h, rest);
      var own, others := read(h).enrs, Leaves(read, rest);
      assert multiset(own + others)[e] == multiset(own)[e] + multiset(others)[e];
    }
  }

  /** An ENR is listed once for every hash fetched that publishes it. Only reachable
      hashes are fetched, and all of them if they are at most 5000. */
  lemma ListedExactly(tree: Tree, root: string, e: Enr) returns (publishers: set<string>)
    ensures multiset(EnrsOf(tree, root))[e] == |publishers|
    ensures forall h :: h in publishers ==> Reachable(ReaderOf(tree), root, h) && Publishes(tree, h, e)
    ensures AtMostReachable(ReaderOf(tree), root, 5000) ==>
              forall h :: Reachable(ReaderOf(tree), root, h) && Publishes(tree, h, e) ==> h in publishers
  {
    var f := Fetches(ReaderOf(tree), [root], {}, MAX_RECORDS);
    WalkIsExact(ReaderOf(tree), root, MAX_RECORDS);
    LeavesCount(tree, f, e);
    publishers := Publishers(tree, f, e);
  }

  /** Record i is the first that announces a root. */
  ghost predicate FirstRoot(records: seq<string>, i: int) {
    && 0 <= i < |records|
    && "enrtree-root:v1" <= records[i]
    && forall j :: 0 <= j < i ==> !("enrtree-root:v1" <= records[j])
  }

  lemma {:induction false} FindRootExactly(records: seq<string>) returns (i: int)
    ensures match FindRoot(records)
            case Some(record) => FirstRoot(records, i) && records[i] == record
            case None => forall j :: !FirstRoot(records, j)
  {
    i := 0;
    if records != [] && !("enrtree-root:v1" <= records[0]) {
      i := FindRootExactly(records[1..]);
      i := i + 1;
      forall j | FirstRoot(records, j) ensures FirstRoot(records[1..], j - 1) {}
    }
  }

  /** The walk starts from (domain, hash) exactly when the URL names that domain and
      the first root record served there carries that hash under the URL's key. */
  lemma RootOfExactly(crypto: Crypto, resolver: Resolver, url: string, domain: string, hash: string)
    ensures RootOf(crypto, resolver, url) == Ok((domain, hash))
            <==> exists pubkey, records, i ::
                   && crypto.parseLink(url) == Ok(EnrTreeLink(pubkey, domain))
                   && resolver(domain) == Ok(records)
                   && FirstRoot(records, i)
                   && crypto.verifyRoot(records[i], pubkey) == Ok(hash)
  {
    var link := crypto.parseLink(url);
    if link.Ok? && resolver(link.value.domain).Ok? {
      var i := FindRootExactly(resolver(link.value.domain).value);
      if RootOf(crypto, resolver, url) == Ok((domain, hash)) {
        assert link == Ok(EnrTreeLink(link.value.pubkey, domain));
      }
    }
  }

  /** It fails with an error exactly when the first thing to go wrong says so: the
      URL, the lookup of its domain, a missing root record, or the signature check. */
  lemma RootErrorExactly(crypto: Crypto, resolver: Resolver, url: string, e: DnsError)
    ensures RootOf(crypto, resolver, url) == Err(e)
            <==> match crypto.parseLink(url)
                 case Err(bad) => e == bad
                 case Ok(link) =>
                   match resolver(link.domain)
                   case Err(lost) => e == lost
                   case Ok(records) =>
                     if forall i :: !FirstRoot(records, i) then e == BadRoot
                     else exists i :: FirstRoot(records, i) && crypto.verifyRoot(records[i], link.pubkey) == Err(e)
  {
    var link := crypto.parseLink(url);
    if link.Ok? && resolver(link.value.domain).Ok? {
      var i := FindRootExactly(resolver(link.value.domain).value);
    }
  }

  /** When at most 5000 hashes are reachable through verified branches, the
      answer lists the ENRs of exactly those hashes, each hash once; otherwise
      5000 distinct reachable hashes were fetched. */
  lemma ResolvesReachableEnrs(tree: Tree, root: string)
    ensures exists hashes :: Distinct(hashes)
              && EnrsOf(tree, root) == Leaves(ReaderOf(tree), hashes)
              && (forall h :: h in hashes ==> Reachable(ReaderOf(tree), root, h))
              && (if AtMostReachable(ReaderOf(tree), root, MAX_RECORDS)
                  then forall h :: Reachable(ReaderOf(tree), root, h) ==> h in hashes
                  else |hashes| == MAX_RECORDS)
  {
    WalkIsExact(ReaderOf(tree), root, MAX_RECORDS);
  }

  // ----- What a lying resolver can do

  ghost predicate Serves(tree: Tree, content: string) {
    exists hash :: Content(tree, hash) == Some(content)
  }

  /** No two different records that the two resolvers serve share a hash. */
  ghost predicate NoCollision(lying: Tree, honest: Tree) {
    var hash := honest.crypto.subdomainHash;
    forall a, b :: Serves(lying, a) && Serves(honest, b) && hash(a) == hash(b) ==> a == b
  }

  /** Whatever can be served for a reachable hash, the honest resolver serves. */
  ghost predicate Answers(honest: Tree, root: string, lying: Tree) {
    forall h :: Reachable(ReaderOf(honest), root, h) && Content(lying, h).Some? ==> Content(honest, h).Some?
  }

  /** For a given root, a resolver can only leave ENRs out: it can neither add
      one nor list one more often than an honest resolver of the same tree. */
  lemma ResolversCanOnlyOmit(lying: Tree, honest: Tree, root: string)
    requires lying.crypto == honest.crypto && NoCollision(lying, honest) && Answers(honest, root, lying)
    requires AtMostReachable(ReaderOf(honest), root, MAX_RECORDS)
    ensures multiset(EnrsOf(lying, root)) <= multiset(EnrsOf(honest, root))
  {
    var read, whole := ReaderOf(lying), ReaderOf(honest);
    forall h | Reachable(whole, root, h) ensures read(h) == Node([], []) || read(h) == whole(h) {
      if Content(lying, h).Some? {
        var a, b := Content(lying, h).value, Content(honest, h).value;
        assert Serves(lying, a) && Serves(honest, b);
      }
    }
    OmittingListsLess(read, whole, root, MAX_RECORDS);
  }
}
