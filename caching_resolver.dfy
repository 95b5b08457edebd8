/** A memoizing resolver: a map from names to the type objects and
    qualifiers found for them, and a map from package names to whether the
    package exists, both in front of an inner resolver that is consulted
    only on a miss. */
module Resolvers {
  import opened Wrappers

  /** What a resolver yields for a name: a type object or a package. */
  datatype Qualifier = TypeObject(id: nat) | PackageObject(packageName: string)

  datatype ResolverError =
    /** The inner resolver does not know the name. */
    | NotFound(name: string)
    /** The cached entry for the name is not a type. */
    | NotAType(name: string)

  /** The resolver whose results are cached, seen through what it can find
      and which packages exist; every query is recorded. */
  class InnerResolver {
    var types: map<string, Qualifier>
    var packages: set<string>
    ghost var findQueries: seq<string>
    ghost var packageQueries: seq<string>

    constructor(types: map<string, Qualifier>, packages: set<string>)
      ensures this.types == types && this.packages == packages
      ensures findQueries == [] && packageQueries == []
    {
      this.types := types;
      this.packages := packages;
      findQueries := [];
      packageQueries := [];
    }

    method Find(name: string) returns (r: Result<Qualifier, ResolverError>)
      modifies this
      ensures r == if name in types then Ok(types[name]) else Err(NotFound(name))
      ensures types == old(types) && packages == old(packages)
      ensures findQueries == old(findQueries) + [name] && packageQueries == old(packageQueries)
    {
      findQueries := findQueries + [name];
      if name in types {
        return Ok(types[name]);
      }
      return Err(NotFound(name));
    }

    method PackageExists(name: string) returns (b: bool)
      modifies this
      ensures b <==> name in packages
      ensures types == old(types) && packages == old(packages)
      ensures packageQueries == old(packageQueries) + [name] && findQueries == old(findQueries)
    {
      packageQueries := packageQueries + [name];
      b := name in packages;
    }
  }

  class CachingResolver {
    const inner: InnerResolver
    var cache: map<string, Qualifier>
    var packageCache: map<string, bool>

    constructor(inner: InnerResolver)
      ensures this.inner == inner && cache == map[] && packageCache == map[]
    {
      this.inner := inner;
      cache := map[];
      packageCache := map[];
    }

    /** Whether a package exists, asking the inner resolver only the first
        time a name is seen. */
    method PackageExists(name: string) returns (b: bool)
      modifies this, inner
      ensures name in old(packageCache) ==>
        b == old(packageCache)[name] && packageCache == old(packageCache) && unchanged(inner)
      ensures name !in old(packageCache) ==>
        && (b <==> name in inner.packages)
        && packageCache == old(packageCache)[name := b]
        && inner.packageQueries == old(inner.packageQueries) + [name]
        && inner.findQueries == old(inner.findQueries)
      ensures cache == old(cache)
      ensures inner.types == old(inner.types) && inner.packages == old(inner.packages)
    {
      if name in packageCache {
        return packageCache[name];
      }
      var found := inner.PackageExists(name);
      packageCache := packageCache[name := found];
      return found;
    }

    /** Finds a name: the cached entry on a hit; on a miss, the inner
        resolver's answer, cached when it succeeds. */
    method Find(name: string) returns (r: Result<Qualifier, ResolverError>)
      modifies this, inner
      ensures name in old(cache) ==>
        r == Ok(old(cache)[name]) && cache == old(cache) && unchanged(inner)
      ensures name !in old(cache) ==>
        && inner.findQueries == old(inner.findQueries) + [name]
        && inner.packageQueries == old(inner.packageQueries)
        && (if name in inner.types
            then r == Ok(inner.types[name]) && cache == old(cache)[name := inner.types[name]]
            else r == Err(NotFound(name)) && cache == old(cache))
      ensures packageCache == old(packageCache)
      ensures inner.types == old(inner.types) && inner.packages == old(inner.packages)
    {
      if name in cache {
        return Ok(cache[name]);
      }
      r := inner.Find(name);
      if r.Ok? {
        cache := cache[name := r.value];
      }
    }

    /** The cached type for a name, if any; a cached package is not a type. */
    method CheckType(name: string) returns (r: Result<Option<Qualifier>, ResolverError>)
      ensures name !in cache ==> r == Ok(None)
      ensures name in cache && cache[name].TypeObject? ==> r == Ok(Some(cache[name]))
      ensures name in cache && !cache[name].TypeObject? ==> r == Err(NotAType(name))
    {
      if name !in cache {
        return Ok(None);
      }
      var q := cache[name];
      if !q.TypeObject? {
        return Err(NotAType(name));
      }
      return Ok(Some(q));
    }

    /** Installs a qualifier under a name, replacing any cached entry. */
    method Install(name: string, q: Qualifier)
      modifies this
      ensures cache == old(cache)[name := q] && packageCache == old(packageCache)
    {
      cache := cache[name := q];
    }
  }

  /** Two finds of the same name. When the first succeeds, the second returns
      the same answer from the cache, so the inner resolver is asked at most
      once. When the first fails, nothing is cached and the second asks the
      inner resolver again; it fails the same way because the inner table
      does not change between the two queries. */
  method FindTwice(res: CachingResolver, name: string) returns (r1: Result<Qualifier, ResolverError>, r2: Result<Qualifier, ResolverError>)
    modifies res, res.inner
    ensures r1.Ok? ==> r2 == r1
    ensures r1.Ok? ==>
      res.inner.findQueries == old(res.inner.findQueries) + (if name in old(res.cache) then [] else [name])
    ensures r1.Err? ==> res.cache == old(res.cache) && r2 == r1
  {
    r1 := res.Find(name);
    r2 := res.Find(name);
  }

  /** Two package queries for the same name agree, and only the first can
      reach the inner resolver. */
  method PackageExistsTwice(res: CachingResolver, name: string) returns (b1: bool, b2: bool)
    modifies res, res.inner
    ensures b1 == b2
    ensures res.inner.packageQueries == old(res.inner.packageQueries) + (if name in old(res.packageCache) then [] else [name])
  {
    b1 := res.PackageExists(name);
    b2 := res.PackageExists(name);
  }

  /** After an install, find returns the installed qualifier without asking
      the inner resolver. */
  method InstallThenFind(res: CachingResolver, name: string, q: Qualifier) returns (r: Result<Qualifier, ResolverError>)
    modifies res, res.inner
    ensures r == Ok(q) && unchanged(res.inner)
  {
    res.Install(name, q);
    r := res.Find(name);
  }

  /** Package queries never disturb the class cache, and finds and installs
      never disturb the package cache. */
  method CachesIndependent(res: CachingResolver, pkg: string, name: string, q: Qualifier)
    modifies res, res.inner
    ensures res.cache == old(res.cache)[name := q]
    ensures pkg in old(res.packageCache) ==> res.packageCache == old(res.packageCache)
  {
    var _ := res.PackageExists(pkg);
    res.Install(name, q);
    var _ := res.Find(name);
  }
}
