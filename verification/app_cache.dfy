/**
 The server's document cache: the fixed catalogue `Body1` .. `Body12` and
 `Hair1` .. `Hair16`, each parsed once and indexed for its slots.

 The file system is a map from path to parsed document; a path that is
 missing from it is a file that cannot be parsed, which aborts the build.
 */
module AppCache {
  import opened Wrappers
  import opened SvgTree
  import opened SlotIndex

  /** One cache entry: the document and its slot record. */
  datatype Entry = Entry(role: Role, tree: Element, slots: Slots)

  type Cache = map<string, Entry>

  datatype LoadError = ParseError(path: string)

  /** The catalogue sizes: `range(1, 13)` bodies and `range(1, 17)` hairs. */
  const BodyCount: nat := 12
  const HairCount: nat := 16

  /** How many documents of each role the catalogue holds. */
  function Count(role: Role): nat
  {
    match role
    case Body => BodyCount
    case Hair => HairCount
  }

  function DecimalDigit(d: nat): char
    requires d < 10
  {
    "0123456789"[d]
  }

  /** The decimal rendering Python gives a non-negative integer in an f-string. */
  function Decimal(n: nat): string
    decreases n
  {
    if n < 10 then [DecimalDigit(n)] else Decimal(n / 10) + [DecimalDigit(n % 10)]
  }

  /** Different numbers render differently. */
  lemma {:induction false} DecimalInjective(a: nat, b: nat)
    requires Decimal(a) == Decimal(b)
    ensures a == b
    decreases a
  {
    if a < 10 && b < 10 {
      assert Decimal(a)[0] == Decimal(b)[0];
    } else if a >= 10 && b >= 10 {
      var da, db := Decimal(a), Decimal(b);
      assert da[|da| - 1] == db[|db| - 1];
      assert a % 10 == b % 10;
      assert da[..|da| - 1] == Decimal(a / 10);
      assert db[..|db| - 1] == Decimal(b / 10);
      DecimalInjective(a / 10, b / 10);
    }
  }

  /** The cache key of the `n`-th document of a role, as in `f'Body{i}'`. */
  function KeyFor(role: Role, n: nat): string
  {
    Prefix(role) + Decimal(n)
  }

  /** The file the `n`-th document of a role is read from. */
  function PathFor(dir: string, role: Role, n: nat): string
  {
    dir + "/" + KeyFor(role, n) + ".svg"
  }

  /** Keys of one role are distinct, and never collide with the other role's. */
  lemma KeyForInjective(r1: Role, n1: nat, r2: Role, n2: nat)
    requires KeyFor(r1, n1) == KeyFor(r2, n2)
    ensures r1 == r2 && n1 == n2
  {
    assert KeyFor(r1, n1)[0] == KeyFor(r2, n2)[0];
    assert r1 == r2;
    assert Decimal(n1) == KeyFor(r1, n1)[4..];
    assert Decimal(n2) == KeyFor(r2, n2)[4..];
    DecimalInjective(n1, n2);
  }

  /** The entry built for one parsed document. */
  function IndexEntry(role: Role, root: Element): Entry
  {
    Entry(role, root, IndexLayer(root, role))
  }

  /** Processes documents 1 .. `n` of a role in order, adding each to `base`;
      the first file that cannot be parsed aborts with its path. */
  function IndexUpTo(docs: map<string, Element>, dir: string, role: Role, n: nat, base: Cache): Result<Cache, LoadError>
    decreases n
  {
    if n == 0 then Success(base)
    else
      match IndexUpTo(docs, dir, role, n - 1, base)
      case Failure(e) => Failure(e)
      case Success(c) =>
        var path := PathFor(dir, role, n);
        if path !in docs then Failure(ParseError(path))
        else Success(c[KeyFor(role, n) := IndexEntry(role, docs[path])])
  }

  /** The whole build: all body documents, then all hair documents. */
  function BuildCache(docs: map<string, Element>, bodyDir: string, hairDir: string): Result<Cache, LoadError>
  {
    match IndexUpTo(docs, bodyDir, Body, Count(Body), map[])
    case Failure(e) => Failure(e)
    case Success(bodies) => IndexUpTo(docs, hairDir, Hair, Count(Hair), bodies)
  }

  /** One role's pass succeeds exactly when every one of its files parses;
      otherwise it reports the first file of that role that does not parse. */
  lemma {:induction false} IndexUpToSucceeds(docs: map<string, Element>, dir: string, role: Role, n: nat, base: Cache)
    ensures IndexUpTo(docs, dir, role, n, base).Success? <==> forall k :: 1 <= k <= n ==> PathFor(dir, role, k) in docs
    ensures IndexUpTo(docs, dir, role, n, base).Failure? ==>
      exists k :: 1 <= k <= n && IndexUpTo(docs, dir, role, n, base).error == ParseError(PathFor(dir, role, k)) && PathFor(dir, role, k) !in docs
        && forall j :: 1 <= j < k ==> PathFor(dir, role, j) in docs
  {
    IndexUpToSuccessIff(docs, dir, role, n, base);
    IndexUpToFailureNamesFile(docs, dir, role, n, base);
  }

  lemma {:induction false} IndexUpToSuccessIff(docs: map<string, Element>, dir: string, role: Role, n: nat, base: Cache)
    ensures IndexUpTo(docs, dir, role, n, base).Success? <==> forall k :: 1 <= k <= n ==> PathFor(dir, role, k) in docs
    decreases n
  {
    if n != 0 {
      IndexUpToSuccessIff(docs, dir, role, n - 1, base);
      var prev := IndexUpTo(docs, dir, role, n - 1, base);
      var path := PathFor(dir, role, n);
      if prev.Failure? {
        assert IndexUpTo(docs, dir, role, n, base).Failure?;
        var k :| 1 <= k <= n - 1 && PathFor(dir, role, k) !in docs;
      } else if path !in docs {
        assert IndexUpTo(docs, dir, role, n, base).Failure?;
      } else {
        assert IndexUpTo(docs, dir, role, n, base).Success?;
      }
    }
  }

  lemma {:induction false} IndexUpToFailureNamesFile(docs: map<string, Element>, dir: string, role: Role, n: nat, base: Cache)
    ensures IndexUpTo(docs, dir, role, n, base).Failure? ==>
      exists k :: 1 <= k <= n && IndexUpTo(docs, dir, role, n, base).error == ParseError(PathFor(dir, role, k)) && PathFor(dir, role, k) !in docs
        && forall j :: 1 <= j < k ==> PathFor(dir, role, j) in docs
    decreases n
  {
    if n != 0 {
      IndexUpToFailureNamesFile(docs, dir, role, n - 1, base);
      var prev := IndexUpTo(docs, dir, role, n - 1, base);
      var path := PathFor(dir, role, n);
      if prev.Failure? {
        assert IndexUpTo(docs, dir, role, n, base) == prev;
        var k :| 1 <= k <= n - 1 && prev.error == ParseError(PathFor(dir, role, k)) && PathFor(dir, role, k) !in docs
          && forall j :: 1 <= j < k ==> PathFor(dir, role, j) in docs;
      } else if path !in docs {
        IndexUpToSuccessIff(docs, dir, role, n - 1, base);
        assert IndexUpTo(docs, dir, role, n, base) == Failure(ParseError(path));
        assert forall j :: 1 <= j < n ==> PathFor(dir, role, j) in docs;
      }
    }
  }

  /** After a successful pass, each key 1 .. `n` of the role holds the entry
      of its own file. */
  lemma {:induction false} IndexUpToAdds(docs: map<string, Element>, dir: string, role: Role, n: nat, base: Cache)
    requires IndexUpTo(docs, dir, role, n, base).Success?
    ensures forall k :: 1 <= k <= n ==>
      && PathFor(dir, role, k) in docs
      && KeyFor(role, k) in IndexUpTo(docs, dir, role, n, base).value
      && IndexUpTo(docs, dir, role, n, base).value[KeyFor(role, k)] == IndexEntry(role, docs[PathFor(dir, role, k)])
  {
    forall k | 1 <= k <= n
      ensures PathFor(dir, role, k) in docs
      ensures KeyFor(role, k) in IndexUpTo(docs, dir, role, n, base).value
      ensures IndexUpTo(docs, dir, role, n, base).value[KeyFor(role, k)] == IndexEntry(role, docs[PathFor(dir, role, k)])
    {
      IndexUpToAddsKey(docs, dir, role, n, base, k);
    }
  }

  lemma {:induction false} IndexUpToAddsKey(docs: map<string, Element>, dir: string, role: Role, n: nat, base: Cache, k: nat)
    requires IndexUpTo(docs, dir, role, n, base).Success?
    requires 1 <= k <= n
    ensures PathFor(dir, role, k) in docs
    ensures KeyFor(role, k) in IndexUpTo(docs, dir, role, n, base).value
    ensures IndexUpTo(docs, dir, role, n, base).value[KeyFor(role, k)] == IndexEntry(role, docs[PathFor(dir, role, k)])
    decreases n
  {
    var prev := IndexUpTo(docs, dir, role, n - 1, base);
    var path := PathFor(dir, role, n);
    assert prev.Success? && path in docs;
    assert IndexUpTo(docs, dir, role, n, base).value == prev.value[KeyFor(role, n) := IndexEntry(role, docs[path])];
    if k < n {
      IndexUpToAddsKey(docs, dir, role, n - 1, base, k);
      if KeyFor(role, k) == KeyFor(role, n) {
        KeyForInjective(role, k, role, n);
      }
    }
  }

  /** A successful pass adds no key beyond 1 .. `n` of its role. */
  lemma {:induction false} IndexUpToFrame(docs: map<string, Element>, dir: string, role: Role, n: nat, base: Cache)
    requires IndexUpTo(docs, dir, role, n, base).Success?
    ensures forall key :: key in IndexUpTo(docs, dir, role, n, base).value ==>
      key in base || exists k :: 1 <= k <= n && key == KeyFor(role, k)
    decreases n
  {
    if n != 0 {
      IndexUpToFrame(docs, dir, role, n - 1, base);
    }
  }

  /** The build succeeds exactly when every catalogue file parses. */
  lemma BuildCacheSucceeds(docs: map<string, Element>, bodyDir: string, hairDir: string)
    ensures BuildCache(docs, bodyDir, hairDir).Success? <==>
      && (forall k :: 1 <= k <= Count(Body) ==> PathFor(bodyDir, Body, k) in docs)
      && (forall k :: 1 <= k <= Count(Hair) ==> PathFor(hairDir, Hair, k) in docs)
  {
    IndexUpToSucceeds(docs, bodyDir, Body, Count(Body), map[]);
    var b := IndexUpTo(docs, bodyDir, Body, Count(Body), map[]);
    if b.Success? {
      IndexUpToSucceeds(docs, hairDir, Hair, Count(Hair), b.value);
    }
  }

  /** No body key is a hair key. */
  lemma RoleKeysDisjoint(k: nat, j: nat)
    ensures KeyFor(Body, k) != KeyFor(Hair, j)
  {
    assert KeyFor(Body, k)[0] != KeyFor(Hair, j)[0];
  }

  /** Every slot record in the cache fits its document. */
  ghost predicate AllValid(c: Cache)
  {
    forall key :: key in c ==> ValidSlots(c[key].tree, c[key].role, c[key].slots)
  }

  /** Storing a well-formed entry keeps a cache well-formed. */
  lemma AllValidUpdate(c: Cache, key: string, e: Entry)
    requires AllValid(c)
    requires ValidSlots(e.tree, e.role, e.slots)
    ensures AllValid(c[key := e])
  {
  }

  /** A pass over one role only adds well-formed entries. */
  lemma {:induction false} IndexUpToKeepsValid(docs: map<string, Element>, dir: string, role: Role, n: nat, base: Cache)
    requires AllValid(base)
    ensures IndexUpTo(docs, dir, role, n, base).Success? ==> AllValid(IndexUpTo(docs, dir, role, n, base).value)
    decreases n
  {
    if n != 0 {
      IndexUpToKeepsValid(docs, dir, role, n - 1, base);
      var prev := IndexUpTo(docs, dir, role, n - 1, base);
      var path := PathFor(dir, role, n);
      if prev.Success? && path in docs {
        IndexLayerFindsSlots(docs[path], role);
        var entry := IndexEntry(role, docs[path]);
        assert IndexUpTo(docs, dir, role, n, base).value == prev.value[KeyFor(role, n) := entry];
        AllValidUpdate(prev.value, KeyFor(role, n), entry);
      }
    }
  }

  /** A pass over one role keeps an entry whose key is not of that role. */
  lemma {:induction false} IndexUpToKeeps(docs: map<string, Element>, dir: string, role: Role, n: nat, base: Cache, key: string)
    requires IndexUpTo(docs, dir, role, n, base).Success?
    requires key in base
    requires forall k :: 1 <= k <= n ==> key != KeyFor(role, k)
    ensures key in IndexUpTo(docs, dir, role, n, base).value
    ensures IndexUpTo(docs, dir, role, n, base).value[key] == base[key]
    decreases n
  {
    if n != 0 {
      IndexUpToKeeps(docs, dir, role, n - 1, base, key);
    }
  }

  /** A built cache holds every body key, each with the entry of its own file. */
  lemma BuildCacheHasBodies(docs: map<string, Element>, bodyDir: string, hairDir: string)
    requires BuildCache(docs, bodyDir, hairDir).Success?
    ensures var c := BuildCache(docs, bodyDir, hairDir).value;
      forall k :: 1 <= k <= Count(Body) ==> PathFor(bodyDir, Body, k) in docs && KeyFor(Body, k) in c && c[KeyFor(Body, k)] == IndexEntry(Body, docs[PathFor(bodyDir, Body, k)])
  {
    var b := IndexUpTo(docs, bodyDir, Body, Count(Body), map[]).value;
    IndexUpToAdds(docs, bodyDir, Body, Count(Body), map[]);
    forall k | 1 <= k <= Count(Body)
      ensures KeyFor(Body, k) in IndexUpTo(docs, hairDir, Hair, Count(Hair), b).value
      ensures IndexUpTo(docs, hairDir, Hair, Count(Hair), b).value[KeyFor(Body, k)] == b[KeyFor(Body, k)]
    {
      forall j | 1 <= j <= Count(Hair)
        ensures KeyFor(Body, k) != KeyFor(Hair, j)
      {
        RoleKeysDisjoint(k, j);
      }
      IndexUpToKeeps(docs, hairDir, Hair, Count(Hair), b, KeyFor(Body, k));
    }
  }

  /** A built cache holds every hair key, each with the entry of its own file. */
  lemma BuildCacheHasHairs(docs: map<string, Element>, bodyDir: string, hairDir: string)
    requires BuildCache(docs, bodyDir, hairDir).Success?
    ensures var c := BuildCache(docs, bodyDir, hairDir).value;
      forall k :: 1 <= k <= Count(Hair) ==> PathFor(hairDir, Hair, k) in docs && KeyFor(Hair, k) in c && c[KeyFor(Hair, k)] == IndexEntry(Hair, docs[PathFor(hairDir, Hair, k)])
  {
    var b := IndexUpTo(docs, bodyDir, Body, Count(Body), map[]).value;
    IndexUpToAdds(docs, hairDir, Hair, Count(Hair), b);
  }

  /** A built cache holds no key outside the catalogue, and its slot
      records all fit their documents. */
  lemma BuildCacheOnlyCatalogue(docs: map<string, Element>, bodyDir: string, hairDir: string)
    requires BuildCache(docs, bodyDir, hairDir).Success?
    ensures var c := BuildCache(docs, bodyDir, hairDir).value;
      forall key :: key in c ==> (exists k :: 1 <= k <= Count(Body) && key == KeyFor(Body, k)) || (exists k :: 1 <= k <= Count(Hair) && key == KeyFor(Hair, k))
    ensures AllValid(BuildCache(docs, bodyDir, hairDir).value)
  {
    var b := IndexUpTo(docs, bodyDir, Body, Count(Body), map[]).value;
    IndexUpToFrame(docs, bodyDir, Body, Count(Body), map[]);
    IndexUpToFrame(docs, hairDir, Hair, Count(Hair), b);
    IndexUpToKeepsValid(docs, bodyDir, Body, Count(Body), map[]);
    IndexUpToKeepsValid(docs, hairDir, Hair, Count(Hair), b);
  }
}
