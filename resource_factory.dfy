/**
 * HttpResourceFactory: hands out one HttpResource per canonical URL, so that
 * every spelling of a URL shares the same resource object.
 */
module ResourceFactory {
  import opened Wrappers
  import opened HttpUrls

  /** A resource on the web, made for the canonical form of its URL. */
  class HttpResource {
    const uri: UrlParts

    constructor(uri: UrlParts)
      ensures this.uri == uri
    {
      this.uri := uri;
    }
  }

  class HttpResourceFactory {
    /** The memo table from canonical URL to the resource made for it. */
    var directory: map<HttpURL, HttpResource>

    /** Every resource in the table was made for the URL it is filed under. */
    ghost predicate Valid()
      reads this
    {
      forall u :: u in directory ==> directory[u].uri == u.url
    }

    constructor()
      ensures Valid()
      ensures directory == map[]
    {
      directory := map[];
    }

    /**
     * get: construct the HttpURL (which may throw), return the resource
     * already filed under it, or make one for the canonical URL and file it.
     */
    method Get(parsed: Option<UrlParts>) returns (r: Result<HttpResource, UrlError>)
      requires Valid()
      modifies this
      ensures Valid()
      ensures Create(parsed).Failure? ==> r == Failure(Create(parsed).error) && directory == old(directory)
      ensures Create(parsed).Success? ==>
        && r.Success?
        && r.value.uri == Create(parsed).value.url
        && directory == old(directory)[Create(parsed).value := r.value]
      ensures Create(parsed).Success? && Create(parsed).value in old(directory) ==>
        r.value == old(directory)[Create(parsed).value]
      ensures Create(parsed).Success? && Create(parsed).value !in old(directory) ==> fresh(r.value)
    {
      var created := Create(parsed);
      if created.Failure? {
        return Failure(created.error);
      }
      var url := created.value;
      if url in directory {
        return Success(directory[url]);
      }
      var out := new HttpResource(url.url);
      directory := directory[url := out];
      return Success(out);
    }
  }

  /** A valid table never files one resource under two URLs. */
  lemma ResourcesAreDistinct(f: HttpResourceFactory, u: HttpURL, v: HttpURL)
    requires f.Valid() && u in f.directory && v in f.directory
    ensures f.directory[u] == f.directory[v] <==> u == v
  {
  }

  /** Two spellings that construct the same HttpURL get the very same resource. */
  method EquivalentUrisShareResource(f: HttpResourceFactory, p1: Option<UrlParts>, p2: Option<UrlParts>)
    returns (a: HttpResource, b: HttpResource)
    requires f.Valid()
    requires Create(p1).Success? && Create(p2) == Create(p1)
    modifies f
    ensures f.Valid()
    ensures a == b
  {
    var r1 := f.Get(p1);
    var r2 := f.Get(p2);
    a, b := r1.value, r2.value;
  }

  /** URLs with different canonical forms get different resources. */
  method DifferentUrisGetDifferentResources(f: HttpResourceFactory, p1: Option<UrlParts>, p2: Option<UrlParts>)
    returns (a: HttpResource, b: HttpResource)
    requires f.Valid()
    requires Create(p1).Success? && Create(p2).Success?
    requires !Equals(Create(p1).value, Create(p2).value)
    modifies f
    ensures f.Valid()
    ensures a != b
  {
    var r1 := f.Get(p1);
    var r2 := f.Get(p2);
    a, b := r1.value, r2.value;
  }
}
