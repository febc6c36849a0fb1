/**
 * `scripts/verify-dependencies.mjs`: flags unpinned version ranges in the
 * manifest, walks the lockfile for packages whose integrity hash is missing or
 * not in a recognised format, and decides the exit code. The file reads, the
 * `npm ci --dry-run` probe and all logging are outside the model: the parsed
 * files and the probe's outcome are parameters.
 */
module DependencyAudit {
  import opened Wrappers
  import Strings
  import J = Json

  // ---------------------------------------------------------------------------
  // pinned versions (`checkVersions`)
  // ---------------------------------------------------------------------------

  /** One flagged entry: the dependency name and its version text. */
  datatype Entry = Entry(name: string, version: string)

  /** `version.startsWith('^') || version.startsWith('~')`. */
  predicate IsRange(v: string) {
    Strings.StartsWith(v, "^") || Strings.StartsWith(v, "~")
  }

  /** An `npm:` alias whose version part contains a range operator. */
  predicate IsAliasRange(v: string) {
    Strings.StartsWith(v, "npm:") && (Strings.Contains(v, "^") || Strings.Contains(v, "~"))
  }

  /** A version text the script reports as unpinned. */
  predicate IsUnpinned(v: string) {
    IsRange(v) || IsAliasRange(v)
  }

  /**
   * What the two independent `if`s push for one entry: a version can be pushed
   * by each of them, so the result has up to two copies.
   */
  function Pushes(name: string, value: J.Json): (r: seq<Entry>)
    ensures |r| <= 2
  {
    if value.JStr? then
      (if IsRange(value.s) then [Entry(name, value.s)] else [])
      + (if IsAliasRange(value.s) then [Entry(name, value.s)] else [])
    else []
  }

  /** The loop `for (const [name, version] of Object.entries(obj))`. */
  function CheckEntries(es: seq<(string, J.Json)>): (r: seq<Entry>)
    ensures |r| <= 2 * |es|
    decreases |es|
  {
    if es == [] then [] else Pushes(es[0].0, es[0].1) + CheckEntries(es[1..])
  }

  /** `checkVersions(obj, category)`: an absent or falsy section flags nothing. */
  function CheckVersions(section: Option<J.Json>): (r: seq<Entry>)
    ensures !J.TruthyOpt(section) ==> r == []
  {
    if J.TruthyOpt(section) then CheckEntries(J.Entries(section.value)) else []
  }

  /** The string-valued entries whose version is unpinned, in order: the intended report. */
  function UnpinnedEntries(es: seq<(string, J.Json)>): (r: seq<Entry>)
    ensures forall k :: 0 <= k < |r| ==> IsUnpinned(r[k].version)
    ensures forall m :: 0 <= m < |es| && es[m].1.JStr? && IsUnpinned(es[m].1.s) ==> Entry(es[m].0, es[m].1.s) in r
    decreases |es|
  {
    if es == [] then []
    else
      var rest := UnpinnedEntries(es[1..]);
      assert forall m :: 1 <= m < |es| ==> es[m] == es[1..][m - 1];
      if es[0].1.JStr? && IsUnpinned(es[0].1.s) then [Entry(es[0].0, es[0].1.s)] + rest
      else rest
  }

  /** `^`/`~` ranges and `npm:` aliases are told apart by their first character. */
  lemma RangeAndAliasDisjoint(v: string)
    ensures !(IsRange(v) && IsAliasRange(v))
  {
    if Strings.StartsWith(v, "npm:") {
      assert v[0] == 'n';
    }
  }

  /**
   * Each entry is flagged at most once: because the two checks never both hold,
   * the script's report is exactly the unpinned string entries, in order.
   */
  lemma {:induction false} CheckEntriesFlagsEachOnce(es: seq<(string, J.Json)>)
    ensures CheckEntries(es) == UnpinnedEntries(es)
    decreases |es|
  {
    if es != [] {
      CheckEntriesFlagsEachOnce(es[1..]);
      if es[0].1.JStr? {
        RangeAndAliasDisjoint(es[0].1.s);
      }
    }
  }

  /**
   * An entry is flagged exactly when it is string-valued with an unpinned
   * version: values that are not strings are never flagged.
   */
  lemma FlaggedAreStringEntries(es: seq<(string, J.Json)>)
    ensures forall e :: e in CheckEntries(es) ==>
              IsUnpinned(e.version)
              && exists m :: 0 <= m < |es| && es[m].0 == e.name && es[m].1 == J.JStr(e.version)
    ensures forall m :: 0 <= m < |es| && es[m].1.JStr? && IsUnpinned(es[m].1.s) ==>
              Entry(es[m].0, es[m].1.s) in CheckEntries(es)
  {
    CheckEntriesFlagsEachOnce(es);
    UnpinnedEntriesFrom(es);
  }

  /** Every reported entry comes from a string-valued entry of the section under the same name. */
  lemma {:induction false} UnpinnedEntriesFrom(es: seq<(string, J.Json)>)
    ensures forall e :: e in UnpinnedEntries(es) ==>
              exists m :: 0 <= m < |es| && es[m].0 == e.name && es[m].1 == J.JStr(e.version)
    decreases |es|
  {
    if es != [] {
      UnpinnedEntriesFrom(es[1..]);
      forall e | e in UnpinnedEntries(es)
        ensures exists m :: 0 <= m < |es| && es[m].0 == e.name && es[m].1 == J.JStr(e.version)
      {
        if e in UnpinnedEntries(es[1..]) {
          var m :| 0 <= m < |es[1..]| && es[1..][m].0 == e.name && es[1..][m].1 == J.JStr(e.version);
          assert es[m + 1] == es[1..][m];
        } else {
          assert es[0].0 == e.name && es[0].1 == J.JStr(e.version);
        }
      }
    }
  }

  /** The three reported categories. */
  datatype UnpinnedReport = UnpinnedReport(dependencies: seq<Entry>, devDependencies: seq<Entry>, overrides: seq<Entry>)

  /**
   * `findUnpinnedDependencies` on the parsed manifest. Reading a property of a
   * `null` manifest throws, which ends the script.
   */
  function FindUnpinned(manifest: J.Json): (r: Result<UnpinnedReport, Crash>)
    ensures r.Failure? <==> manifest.JNull?
    ensures r.Success? ==>
              r.value.dependencies == CheckVersions(J.Get(manifest, "dependencies"))
              && r.value.devDependencies == CheckVersions(J.Get(manifest, "devDependencies"))
              && r.value.overrides == CheckVersions(J.Get(manifest, "overrides"))
  {
    if manifest.JNull? then Failure(NullManifest)
    else Success(UnpinnedReport(CheckVersions(J.Get(manifest, "dependencies")),
                          CheckVersions(J.Get(manifest, "devDependencies")),
                          CheckVersions(J.Get(manifest, "overrides"))))
  }

  /** `totalUnpinned`. */
  function TotalUnpinned(u: UnpinnedReport): nat {
    |u.dependencies| + |u.devDependencies| + |u.overrides|
  }

  // ---------------------------------------------------------------------------
  // integrity hashes (`checkIntegrity`)
  // ---------------------------------------------------------------------------

  /** Why the script stops with an uncaught exception. */
  datatype Crash =
    | NullManifest                     // `packageJson.dependencies` on `null`
    | IntegrityNotString(path: string) // `obj.integrity.startsWith` on a truthy non-string

  datatype Problem = InvalidFormat(integrity: string) | MissingIntegrity(resolved: J.Json)

  /** One integrity issue: `obj.name || path`, the version and what is wrong. */
  datatype Issue = Issue(name: J.Json, version: J.Json, problem: Problem)

  /** What the walk accumulates: the issues in visiting order and the two counters. */
  datatype Tally = Tally(issues: seq<Issue>, totalPackages: nat, packagesWithIntegrity: nat)

  const NoTally := Tally([], 0, 0)

  /** A package entry: both `version` and `resolved` are truthy. */
  predicate IsPackage(j: J.Json) {
    J.TruthyOpt(J.Get(j, "version")) && J.TruthyOpt(J.Get(j, "resolved"))
  }

  /** The recognised hash prefixes. */
  predicate KnownFormat(integrity: string) {
    Strings.StartsWith(integrity, "sha512-") || Strings.StartsWith(integrity, "sha1-")
    || Strings.StartsWith(integrity, "sha256-")
  }

  /** A package whose hash is a string in none of the recognised formats. */
  predicate UnknownFormat(j: J.Json) {
    IsPackage(j) && J.TruthyOpt(J.Get(j, "integrity")) && J.Get(j, "integrity").value.JStr?
    && !KnownFormat(J.Get(j, "integrity").value.s)
  }

  /** `path ? `${path}.${key}` : key`. */
  function ChildPath(path: string, key: string): (r: string)
    ensures path == [] ==> r == key
    ensures path != [] ==> |r| == |path| + 1 + |key| && r[..|path|] == path && r[|path|] == '.' && r[|path| + 1..] == key
  {
    if path != [] then path + "." + key else key
  }

  /** The label an issue is reported under. */
  function IssueName(j: J.Json, path: string): (name: J.Json)
    ensures J.TruthyOpt(J.Get(j, "name")) ==> name == J.Get(j, "name").value
    ensures !J.TruthyOpt(J.Get(j, "name")) ==> name == J.JStr(path)
  {
    if J.TruthyOpt(J.Get(j, "name")) then J.Get(j, "name").value else J.JStr(path)
  }

  /** The check of one truthy node, before its children are visited. */
  function CheckNode(j: J.Json, path: string): (r: Result<Tally, Crash>)
    ensures !IsPackage(j) ==> r == Success(NoTally)
    ensures r.Failure? <==> IsPackage(j) && J.TruthyOpt(J.Get(j, "integrity")) && !J.Get(j, "integrity").value.JStr?
    ensures r.Success? && IsPackage(j) ==>
              r.value.totalPackages == 1
              && (r.value.packagesWithIntegrity == 1 <==> J.TruthyOpt(J.Get(j, "integrity")))
              && r.value.packagesWithIntegrity <= 1
    ensures r.Success? && IsPackage(j) ==>
              (r.value.issues == [] <==> J.TruthyOpt(J.Get(j, "integrity")) && KnownFormat(J.Get(j, "integrity").value.s))
    ensures r.Success? && UnknownFormat(j) ==>
              r.value.issues == [Issue(IssueName(j, path), J.Get(j, "version").value, InvalidFormat(J.Get(j, "integrity").value.s))]
    ensures r.Success? && IsPackage(j) && !J.TruthyOpt(J.Get(j, "integrity")) ==>
              r.value.issues == [Issue(IssueName(j, path), J.Get(j, "version").value, MissingIntegrity(J.Get(j, "resolved").value))]
  {
    if !IsPackage(j) then Success(NoTally)
    else
      var version := J.Get(j, "version").value;
      var integrity := J.Get(j, "integrity");
      if J.TruthyOpt(integrity) then
        match integrity.value
        case JStr(s) =>
          if KnownFormat(s) then Success(Tally([], 1, 1))
          else Success(Tally([Issue(IssueName(j, path), version, InvalidFormat(s))], 1, 1))
        case _ => Failure(IntegrityNotString(path))
      else
        Success(Tally([Issue(IssueName(j, path), version, MissingIntegrity(J.Get(j, "resolved").value))], 1, 0))
  }

  /** Sequencing: the first crash ends the walk; otherwise issues append and counters add. */
  function Then(a: Result<Tally, Crash>, b: Result<Tally, Crash>): (r: Result<Tally, Crash>)
    ensures r.Success? <==> a.Success? && b.Success?
    ensures a.Failure? ==> r == a
  {
    if a.Failure? then a
    else if b.Failure? then b
    else Success(Tally(a.value.issues + b.value.issues,
                       a.value.totalPackages + b.value.totalPackages,
                       a.value.packagesWithIntegrity + b.value.packagesWithIntegrity))
  }

  /** How many issues report a missing hash. */
  function CountMissing(issues: seq<Issue>): nat
    decreases |issues|
  {
    if issues == [] then 0
    else (if issues[0].problem.MissingIntegrity? then 1 else 0) + CountMissing(issues[1..])
  }

  /** How many issues report a hash in an unknown format. */
  function CountInvalid(issues: seq<Issue>): nat
    decreases |issues|
  {
    if issues == [] then 0
    else (if issues[0].problem.InvalidFormat? then 1 else 0) + CountInvalid(issues[1..])
  }

  lemma {:induction false} CountMissingAppend(a: seq<Issue>, b: seq<Issue>)
    ensures CountMissing(a + b) == CountMissing(a) + CountMissing(b)
    decreases |a|
  {
    if a == [] {
      assert a + b == b;
    } else {
      assert (a + b)[0] == a[0] && (a + b)[1..] == a[1..] + b;
      CountMissingAppend(a[1..], b);
    }
  }

  lemma {:induction false} IssuesAreMissingOrInvalid(issues: seq<Issue>)
    ensures |issues| == CountMissing(issues) + CountInvalid(issues)
    decreases |issues|
  {
    if issues != [] {
      IssuesAreMissingOrInvalid(issues[1..]);
    }
  }

  /**
   * The counters' invariant: every package either has a hash or has a
   * missing-hash issue, so packages with a hash never outnumber packages.
   */
  predicate Balanced(t: Tally) {
    t.packagesWithIntegrity <= t.totalPackages
    && CountMissing(t.issues) == t.totalPackages - t.packagesWithIntegrity
  }

  lemma ThenBalanced(a: Result<Tally, Crash>, b: Result<Tally, Crash>)
    requires a.Success? ==> Balanced(a.value)
    requires b.Success? ==> Balanced(b.value)
    ensures Then(a, b).Success? ==> Balanced(Then(a, b).value)
  {
    if a.Success? && b.Success? {
      CountMissingAppend(a.value.issues, b.value.issues);
    }
  }

  lemma CheckNodeBalanced(j: J.Json, path: string)
    ensures CheckNode(j, path).Success? ==> Balanced(CheckNode(j, path).value)
  {
  }

  /**
   * `checkIntegrity(obj, path)`: a falsy value is skipped; otherwise the node is
   * checked, then each entry whose value is a non-array object is walked with
   * the extended path, in entry order.
   */
  function Walk(j: J.Json, path: string): (r: Result<Tally, Crash>)
    ensures r.Success? ==> Balanced(r.value)
    decreases j, 1, 0
  {
    if !J.Truthy(j) then Success(NoTally)
    else
      CheckNodeBalanced(j, path);
      var rest := match j
        case JObj(_) => WalkMembers(j, 0, path)
        case JArr(_) => WalkItems(j, 0, path)
        case _ => Success(NoTally);
      ThenBalanced(CheckNode(j, path), rest);
      Then(CheckNode(j, path), rest)
  }

  /** The members of object `obj` from position `k` on, each walked when it is itself an object. */
  function WalkMembers(obj: J.Json, k: nat, path: string): (r: Result<Tally, Crash>)
    requires obj.JObj? && k <= |obj.members|
    ensures r.Success? ==> Balanced(r.value)
    decreases obj, 0, |obj.members| - k
  {
    if k == |obj.members| then Success(NoTally)
    else
      var key, value := obj.members[k].0, obj.members[k].1;
      var here := if value.JObj? then Walk(value, ChildPath(path, key)) else Success(NoTally);
      var rest := WalkMembers(obj, k + 1, path);
      ThenBalanced(here, rest);
      Then(here, rest)
  }

  /** The elements of array `arr` from index `k` on, keyed by their decimal index. */
  function WalkItems(arr: J.Json, k: nat, path: string): (r: Result<Tally, Crash>)
    requires arr.JArr? && k <= |arr.items|
    ensures r.Success? ==> Balanced(r.value)
    decreases arr, 0, |arr.items| - k
  {
    if k == |arr.items| then Success(NoTally)
    else
      var value := arr.items[k];
      var here := if value.JObj? then Walk(value, ChildPath(path, Strings.NatToDecimal(k))) else Success(NoTally);
      var rest := WalkItems(arr, k + 1, path);
      ThenBalanced(here, rest);
      Then(here, rest)
  }

  // ---------------------------------------------------------------------------
  // the walk as a visiting order
  // ---------------------------------------------------------------------------

  /** A node the walk checks, with the path it is reported under. */
  datatype Node = Node(value: J.Json, path: string)

  /**
   * The nodes the walk checks, in the order it checks them: a truthy value,
   * then the nodes under each of its object-valued entries.
   */
  function Visited(j: J.Json, path: string): (ns: seq<Node>)
    ensures J.Truthy(j) <==> ns != []
    ensures ns != [] ==> ns[0] == Node(j, path)
    decreases j, 1, 0
  {
    if !J.Truthy(j) then []
    else
      [Node(j, path)] + match j
        case JObj(_) => VisitedMembers(j, 0, path)
        case JArr(_) => VisitedItems(j, 0, path)
        case _ => []
  }

  function VisitedMembers(obj: J.Json, k: nat, path: string): seq<Node>
    requires obj.JObj? && k <= |obj.members|
    decreases obj, 0, |obj.members| - k
  {
    if k == |obj.members| then []
    else
      var key, value := obj.members[k].0, obj.members[k].1;
      (if value.JObj? then Visited(value, ChildPath(path, key)) else []) + VisitedMembers(obj, k + 1, path)
  }

  function VisitedItems(arr: J.Json, k: nat, path: string): seq<Node>
    requires arr.JArr? && k <= |arr.items|
    decreases arr, 0, |arr.items| - k
  {
    if k == |arr.items| then []
    else
      var value := arr.items[k];
      (if value.JObj? then Visited(value, ChildPath(path, Strings.NatToDecimal(k))) else [])
      + VisitedItems(arr, k + 1, path)
  }

  /** Checking a list of nodes in order, stopping at the first crash. */
  function CheckAll(ns: seq<Node>): Result<Tally, Crash>
    decreases |ns|
  {
    if ns == [] then Success(NoTally) else Then(CheckNode(ns[0].value, ns[0].path), CheckAll(ns[1..]))
  }

  lemma ThenIdentity(a: Result<Tally, Crash>)
    ensures Then(Success(NoTally), a) == a && Then(a, Success(NoTally)) == a
  {
    if a.Success? {
      assert [] + a.value.issues == a.value.issues + [] == a.value.issues;
    }
  }

  lemma ThenAssociative(a: Result<Tally, Crash>, b: Result<Tally, Crash>, c: Result<Tally, Crash>)
    ensures Then(Then(a, b), c) == Then(a, Then(b, c))
  {
    if a.Success? && b.Success? && c.Success? {
      assert a.value.issues + b.value.issues + c.value.issues
          == a.value.issues + (b.value.issues + c.value.issues);
    }
  }

  lemma {:induction false} CheckAllAppend(a: seq<Node>, b: seq<Node>)
    ensures CheckAll(a + b) == Then(CheckAll(a), CheckAll(b))
    decreases |a|
  {
    if a == [] {
      assert a + b == b;
      ThenIdentity(CheckAll(b));
    } else {
      assert (a + b)[0] == a[0] && (a + b)[1..] == a[1..] + b;
      CheckAllAppend(a[1..], b);
      ThenAssociative(CheckNode(a[0].value, a[0].path), CheckAll(a[1..]), CheckAll(b));
    }
  }

  /**
   * The recursive walk checks exactly the visited nodes, in visiting order: its
   * result is that of checking them one after another.
   */
  lemma {:induction false} WalkChecksVisited(j: J.Json, path: string)
    ensures Walk(j, path) == CheckAll(Visited(j, path))
    decreases j, 1, 0
  {
    if J.Truthy(j) {
      var rest := match j
        case JObj(_) => VisitedMembers(j, 0, path)
        case JArr(_) => VisitedItems(j, 0, path)
        case _ => [];
      match j {
        case JObj(_) => WalkMembersChecksVisited(j, 0, path);
        case JArr(_) => WalkItemsChecksVisited(j, 0, path);
        case _ =>
      }
      assert Visited(j, path) == [Node(j, path)] + rest;
      CheckAllAppend([Node(j, path)], rest);
      ThenIdentity(CheckNode(j, path));
    }
  }

  lemma {:induction false} WalkMembersChecksVisited(obj: J.Json, k: nat, path: string)
    requires obj.JObj? && k <= |obj.members|
    ensures WalkMembers(obj, k, path) == CheckAll(VisitedMembers(obj, k, path))
    decreases obj, 0, |obj.members| - k
  {
    if k < |obj.members| {
      var key, value := obj.members[k].0, obj.members[k].1;
      if value.JObj? {
        WalkChecksVisited(value, ChildPath(path, key));
      }
      WalkMembersChecksVisited(obj, k + 1, path);
      CheckAllAppend(if value.JObj? then Visited(value, ChildPath(path, key)) else [],
                     VisitedMembers(obj, k + 1, path));
    }
  }

  lemma {:induction false} WalkItemsChecksVisited(arr: J.Json, k: nat, path: string)
    requires arr.JArr? && k <= |arr.items|
    ensures WalkItems(arr, k, path) == CheckAll(VisitedItems(arr, k, path))
    decreases arr, 0, |arr.items| - k
  {
    if k < |arr.items| {
      var value := arr.items[k];
      var key := Strings.NatToDecimal(k);
      if value.JObj? {
        WalkChecksVisited(value, ChildPath(path, key));
      }
      WalkItemsChecksVisited(arr, k + 1, path);
      CheckAllAppend(if value.JObj? then Visited(value, ChildPath(path, key)) else [],
                     VisitedItems(arr, k + 1, path));
    }
  }

  /** A node whose check throws. */
  predicate Crashes(n: Node) {
    CheckNode(n.value, n.path).Failure?
  }

  function CountPackages(ns: seq<Node>): nat
    decreases |ns|
  {
    if ns == [] then 0 else (if IsPackage(ns[0].value) then 1 else 0) + CountPackages(ns[1..])
  }

  function CountWithIntegrity(ns: seq<Node>): nat
    decreases |ns|
  {
    if ns == [] then 0
    else (if IsPackage(ns[0].value) && J.TruthyOpt(J.Get(ns[0].value, "integrity")) then 1 else 0)
         + CountWithIntegrity(ns[1..])
  }

  /**
   * Checking a list of nodes crashes exactly when one of them crashes; otherwise
   * `totalPackages` counts the package nodes and `packagesWithIntegrity` those
   * among them with a truthy `integrity`.
   */
  lemma {:induction false} CheckAllCounts(ns: seq<Node>)
    ensures CheckAll(ns).Failure? <==> exists k :: 0 <= k < |ns| && Crashes(ns[k])
    ensures CheckAll(ns).Success? ==>
              CheckAll(ns).value.totalPackages == CountPackages(ns)
              && CheckAll(ns).value.packagesWithIntegrity == CountWithIntegrity(ns)
    decreases |ns|
  {
    if ns != [] {
      CheckAllCounts(ns[1..]);
      if exists k :: 0 <= k < |ns[1..]| && Crashes(ns[1..][k]) {
        var k :| 0 <= k < |ns[1..]| && Crashes(ns[1..][k]);
        assert Crashes(ns[k + 1]);
      }
      if exists k :: 0 <= k < |ns| && Crashes(ns[k]) {
        var k :| 0 <= k < |ns| && Crashes(ns[k]);
        if k > 0 { assert Crashes(ns[1..][k - 1]); }
      }
    }
  }

  /** How many of the nodes are packages whose hash is in an unknown format. */
  function CountUnknownFormat(ns: seq<Node>): nat
    decreases |ns|
  {
    if ns == [] then 0 else (if UnknownFormat(ns[0].value) then 1 else 0) + CountUnknownFormat(ns[1..])
  }

  lemma {:induction false} CountInvalidAppend(a: seq<Issue>, b: seq<Issue>)
    ensures CountInvalid(a + b) == CountInvalid(a) + CountInvalid(b)
    decreases |a|
  {
    if a == [] {
      assert a + b == b;
    } else {
      assert (a + b)[0] == a[0] && (a + b)[1..] == a[1..] + b;
      CountInvalidAppend(a[1..], b);
    }
  }

  /** One node reports an unknown-format issue exactly when its hash is a string in an unknown format. */
  lemma CheckNodeInvalid(j: J.Json, path: string)
    requires CheckNode(j, path).Success?
    ensures CountInvalid(CheckNode(j, path).value.issues) == if UnknownFormat(j) then 1 else 0
  {
    var issues := CheckNode(j, path).value.issues;
    assert issues == [] || |issues| == 1;
    if issues != [] {
      assert issues[1..] == [];
    }
  }

  /**
   * The unknown-format issues a check reports are one per visited package whose
   * hash is a string in none of the recognised formats.
   */
  lemma {:induction false} CheckAllInvalid(ns: seq<Node>)
    ensures CheckAll(ns).Success? ==> CountInvalid(CheckAll(ns).value.issues) == CountUnknownFormat(ns)
    decreases |ns|
  {
    if ns != [] && CheckAll(ns).Success? {
      var head := CheckNode(ns[0].value, ns[0].path);
      CheckAllInvalid(ns[1..]);
      CheckNodeInvalid(ns[0].value, ns[0].path);
      CountInvalidAppend(head.value.issues, CheckAll(ns[1..]).value.issues);
    }
  }

  /** Nodes that are all (non-array) objects. */
  predicate AllObjects(ns: seq<Node>) {
    forall n :: n in ns ==> n.value.JObj?
  }

  lemma AllObjectsAppend(a: seq<Node>, b: seq<Node>)
    requires AllObjects(a) && AllObjects(b)
    ensures AllObjects(a + b)
  {
  }

  /** Every node the walk reaches below the top is a (non-array) object. */
  lemma {:induction false} VisitedBelowTopAreObjects(j: J.Json, path: string)
    ensures var ns := Visited(j, path);
            ns == [] || AllObjects(ns[1..])
    decreases j, 1, 0
  {
    if J.Truthy(j) {
      var ns := Visited(j, path);
      if j.JObj? {
        MembersVisitObjects(j, 0, path);
        assert ns[1..] == VisitedMembers(j, 0, path);
      } else if j.JArr? {
        ItemsVisitObjects(j, 0, path);
        assert ns[1..] == VisitedItems(j, 0, path);
      } else {
        assert ns[1..] == [];
      }
    }
  }

  /** An object-valued entry contributes only objects. */
  lemma ObjectChildVisitsObjects(value: J.Json, path: string)
    requires value.JObj?
    ensures AllObjects(Visited(value, path))
    decreases value, 2, 0
  {
    VisitedBelowTopAreObjects(value, path);
    var ns := Visited(value, path);
    assert ns == [ns[0]] + ns[1..];
  }

  lemma {:induction false} MembersVisitObjects(obj: J.Json, k: nat, path: string)
    requires obj.JObj? && k <= |obj.members|
    ensures AllObjects(VisitedMembers(obj, k, path))
    decreases obj, 0, |obj.members| - k
  {
    if k < |obj.members| {
      var key, value := obj.members[k].0, obj.members[k].1;
      var here: seq<Node> := if value.JObj? then Visited(value, ChildPath(path, key)) else [];
      if value.JObj? {
        ObjectChildVisitsObjects(value, ChildPath(path, key));
      }
      MembersVisitObjects(obj, k + 1, path);
      AllObjectsAppend(here, VisitedMembers(obj, k + 1, path));
    }
  }

  lemma {:induction false} ItemsVisitObjects(arr: J.Json, k: nat, path: string)
    requires arr.JArr? && k <= |arr.items|
    ensures AllObjects(VisitedItems(arr, k, path))
    decreases arr, 0, |arr.items| - k
  {
    if k < |arr.items| {
      var value := arr.items[k];
      var childPath := ChildPath(path, Strings.NatToDecimal(k));
      var here: seq<Node> := if value.JObj? then Visited(value, childPath) else [];
      if value.JObj? {
        ObjectChildVisitsObjects(value, childPath);
      }
      ItemsVisitObjects(arr, k + 1, path);
      AllObjectsAppend(here, VisitedItems(arr, k + 1, path));
    }
  }

  /** Checking nodes one after another keeps the counters balanced. */
  lemma {:induction false} CheckAllBalanced(ns: seq<Node>)
    ensures CheckAll(ns).Success? ==> Balanced(CheckAll(ns).value)
    decreases |ns|
  {
    if ns != [] {
      CheckAllBalanced(ns[1..]);
      CheckNodeBalanced(ns[0].value, ns[0].path);
      ThenBalanced(CheckNode(ns[0].value, ns[0].path), CheckAll(ns[1..]));
    }
  }

  /**
   * What a walk's result says about the nodes it visited: it crashed exactly
   * when one of them crashes; otherwise it counted the package nodes and those
   * with a truthy hash (never more), and its issues are one per package without
   * a hash plus one per hash in an unknown format.
   */
  predicate Accounts(r: Result<Tally, Crash>, ns: seq<Node>) {
    (r.Failure? <==> exists k :: 0 <= k < |ns| && Crashes(ns[k]))
    && (r.Success? ==>
          r.value.totalPackages == CountPackages(ns)
          && r.value.packagesWithIntegrity == CountWithIntegrity(ns) <= CountPackages(ns)
          && CountMissing(r.value.issues) == CountPackages(ns) - CountWithIntegrity(ns)
          && CountInvalid(r.value.issues) == CountUnknownFormat(ns)
          && |r.value.issues| == (CountPackages(ns) - CountWithIntegrity(ns)) + CountUnknownFormat(ns))
  }

  lemma CheckAllAccounts(ns: seq<Node>)
    ensures Accounts(CheckAll(ns), ns)
  {
    CheckAllCounts(ns);
    CheckAllBalanced(ns);
    CheckAllInvalid(ns);
    if CheckAll(ns).Success? {
      IssuesAreMissingOrInvalid(CheckAll(ns).value.issues);
    }
  }

  /**
   * `verifyIntegrityHashes` on the parsed lockfile (walked from the empty
   * path): its result accounts for exactly the nodes in the visiting order.
   */
  lemma IntegrityTotals(lock: J.Json, path: string)
    ensures Accounts(Walk(lock, path), Visited(lock, path))
  {
    WalkChecksVisited(lock, path);
    CheckAllAccounts(Visited(lock, path));
  }

  // ---------------------------------------------------------------------------
  // the command line and the exit code
  // ---------------------------------------------------------------------------

  datatype Options = Options(fix: bool, verbose: bool, help: bool)

  /** `args.includes(...)` for each flag and its short form; anything else is ignored. */
  function ParseArgs(args: seq<string>): (o: Options)
    ensures o.fix <==> "--fix" in args || "-f" in args
    ensures o.verbose <==> "--verbose" in args || "-v" in args
    ensures o.help <==> "--help" in args || "-h" in args
  {
    Options("--fix" in args || "-f" in args, "--verbose" in args || "-v" in args,
            "--help" in args || "-h" in args)
  }

  /** The flags the script recognises. */
  predicate IsFlag(arg: string) {
    arg in {"--fix", "-f", "--verbose", "-v", "--help", "-h"}
  }

  /** Arguments are a set of flags: order, repetition and unknown words do not matter. */
  lemma ArgsAreFlags(args: seq<string>, more: seq<string>)
    requires forall a :: a in more ==> !IsFlag(a) || a in args
    ensures ParseArgs(args + more) == ParseArgs(args)
  {
  }

  /** Everything the run found. */
  datatype Report = Report(unpinned: UnpinnedReport, integrity: Tally)

  /** Both checks, in the script's order: the manifest is read before the lockfile is walked. */
  function Audit(manifest: J.Json, lock: J.Json): (r: Result<Report, Crash>)
    ensures r.Failure? <==> manifest.JNull? || Walk(lock, []).Failure?
    ensures r.Success? ==> r.value.integrity == Walk(lock, []).value
  {
    var unpinned := FindUnpinned(manifest);
    if unpinned.Failure? then Failure(unpinned.error)
    else
      var integrity := Walk(lock, []);
      if integrity.Failure? then Failure(integrity.error)
      else Success(Report(unpinned.value, integrity.value))
  }

  datatype Verdict = Failed | PassedWithWarnings | Passed

  /**
   * The summary: integrity issues are errors; unpinned versions and a failed
   * `npm ci --dry-run` (`installOk` false) are only warnings.
   */
  function VerdictOf(r: Report, installOk: bool): (v: Verdict)
    ensures v == Failed <==> r.integrity.issues != []
    ensures v == Passed <==> r.integrity.issues == [] && TotalUnpinned(r.unpinned) == 0 && installOk
  {
    if r.integrity.issues != [] then Failed
    else if TotalUnpinned(r.unpinned) > 0 || !installOk then PassedWithWarnings
    else Passed
  }

  /**
   * The process exit code. `--help` exits 0 before anything is read; a missing
   * manifest or lockfile (`None`) exits 1; an uncaught exception exits 1;
   * otherwise the code is 1 exactly when the verdict is a failure.
   */
  function ExitCode(args: seq<string>, manifest: Option<J.Json>, lock: Option<J.Json>, installOk: bool): (code: int)
    ensures code == 0 || code == 1
  {
    if ParseArgs(args).help then 0
    else if manifest.None? || lock.None? then 1
    else
      match Audit(manifest.value, lock.value)
      case Failure(_) => 1
      case Success(r) => if VerdictOf(r, installOk) == Failed then 1 else 0
  }

  /**
   * The script fails exactly when, help aside, a file is missing, it crashes, or
   * the lockfile has an integrity issue; unpinned versions and the install
   * probe never make it fail.
   */
  lemma ExitCodeOne(args: seq<string>, manifest: Option<J.Json>, lock: Option<J.Json>, installOk: bool)
    ensures ExitCode(args, manifest, lock, installOk) == 1 <==>
              !ParseArgs(args).help
              && (manifest.None? || lock.None? || manifest.value.JNull?
                  || Walk(lock.value, []).Failure? || Walk(lock.value, []).value.issues != [])
  {
  }

  /** `--fix` and `--verbose` change what is printed, never the exit code. */
  lemma FixAndVerboseDoNotMatter(args: seq<string>, flag: string, manifest: Option<J.Json>,
                                 lock: Option<J.Json>, installOk: bool)
    requires flag in {"--fix", "-f", "--verbose", "-v"}
    ensures ExitCode(args + [flag], manifest, lock, installOk) == ExitCode(args, manifest, lock, installOk)
  {
    assert ParseArgs(args + [flag]).help == ParseArgs(args).help;
  }

  // ---------------------------------------------------------------------------
  // listing the issues
  // ---------------------------------------------------------------------------

  /** The issues printed one per line, and the number summarised as "... and N more". */
  datatype Listing = Listing(shown: seq<Issue>, more: nat)

  const ListLimit := 10

  /** `index < 10 || verbose` per issue, then the "more" line when over the limit and not verbose. */
  function ListIssues(issues: seq<Issue>, verbose: bool): (l: Listing)
    ensures verbose ==> l == Listing(issues, 0)
    ensures !verbose ==> |l.shown| == (if |issues| < ListLimit then |issues| else ListLimit)
  {
    if verbose || |issues| <= ListLimit then Listing(issues, 0)
    else Listing(issues[..ListLimit], |issues| - ListLimit)
  }

  /**
   * Nothing is lost from the listing: the printed issues are the first ones, in
   * order, and the "more" count is exactly how many follow them.
   */
  lemma ListingAccountsForAll(issues: seq<Issue>, verbose: bool)
    ensures var l := ListIssues(issues, verbose);
            issues == l.shown + issues[|l.shown|..] && l.more == |issues| - |l.shown|
  {
  }
}
