/**
  The immutable state of an `ApiClient` and its two URL builders. Both API
  versions address a repository as base + owner + "/" + repository + path;
  nothing is escaped and no slash is added or removed, so the URL reads back
  unambiguously only when the owner itself holds no "/".
*/
module Client {
  import opened JavaText
  import opened Wrappers

  /** The basic-auth user name and password handed to the constructor. */
  datatype Credentials = UsernamePassword(username: JString, password: JString)

  /**
    What the constructor stores: credentials, the repository the client works
    on, the logical build-status key and the reporter name. The HTTP client
    factory is transport and not part of this model.
  */
  datatype ApiClient = ApiClient(
    credentials: Credentials,
    owner: JString,
    repositoryName: JString,
    key: JString,
    name: JString)

  const V1ApiBaseUrl: JString := Literal("https://bitbucket.org/api/1.0/repositories/")
  const V2ApiBaseUrl: JString := Literal("https://bitbucket.org/api/2.0/repositories/")

  /**
    `url` spells, position by position: `base`, `owner`, one "/",
    `repositoryName`, then `path`, with nothing inserted or dropped.
  */
  predicate Spells(url: JString, base: JString, owner: JString, repositoryName: JString, path: JString)
  {
    var ownerAt := |base|;
    var repoAt := ownerAt + |owner| + 1;
    var pathAt := repoAt + |repositoryName|;
    && |url| == pathAt + |path|
    && url[..ownerAt] == base
    && url[ownerAt..repoAt - 1] == owner
    && url[repoAt - 1] == '/' as int
    && url[repoAt..pathAt] == repositoryName
    && url[pathAt..] == path
  }

  /** The repository-scoped URL both versions share. */
  function RepoUrl(base: JString, owner: JString, repositoryName: JString, path: JString): (url: JString)
    ensures Spells(url, base, owner, repositoryName, path)
  {
    base + owner + Slash + repositoryName + path
  }

  /** `v1(url)`: a version-1 URL in the client's own repository. */
  function V1(c: ApiClient, path: JString): (url: JString)
    ensures Spells(url, V1ApiBaseUrl, c.owner, c.repositoryName, path)
  {
    RepoUrl(V1ApiBaseUrl, c.owner, c.repositoryName, path)
  }

  /** `v2(owner, repositoryName, path)`: a version-2 URL in any repository. */
  function V2(owner: JString, repositoryName: JString, path: JString): (url: JString)
    ensures Spells(url, V2ApiBaseUrl, owner, repositoryName, path)
  {
    RepoUrl(V2ApiBaseUrl, owner, repositoryName, path)
  }

  /** `v2(path)`: a version-2 URL in the client's own repository, the same as naming them explicitly. */
  function V2Default(c: ApiClient, path: JString): (url: JString)
    ensures Spells(url, V2ApiBaseUrl, c.owner, c.repositoryName, path)
    ensures url == V2(c.owner, c.repositoryName, path)
  {
    V2(c.owner, c.repositoryName, path)
  }

  /** Two URLs that spell the same parts are the same URL. */
  lemma SpellsUnique(u1: JString, u2: JString, base: JString, owner: JString, repositoryName: JString, path: JString)
    requires Spells(u1, base, owner, repositoryName, path) && Spells(u2, base, owner, repositoryName, path)
    ensures u1 == u2
  {
  }

  /**
    Reads a repository URL back: after `base`, the owner runs up to the first
    "/" and everything behind that slash is repository name and path.
  */
  function SplitRepoUrl(base: JString, url: JString): Option<(JString, JString)>
  {
    if |url| < |base| || url[..|base|] != base then None
    else
      var rest := url[|base|..];
      var k := IndexOf(rest, Slash);
      if k < 0 then None else Some((rest[..k], rest[k + 1..]))
  }

  /** A slash-free owner is recovered exactly from a URL the builders produce. */
  lemma SplitRepoUrlInverts(base: JString, owner: JString, repositoryName: JString, path: JString)
    requires !Contains(owner, Slash)
    ensures SplitRepoUrl(base, RepoUrl(base, owner, repositoryName, path)) == Some((owner, repositoryName + path))
  {
    var url := RepoUrl(base, owner, repositoryName, path);
    assert url == base + (owner + Slash + repositoryName + path);
    assert url[..|base|] == base;
    var rest := url[|base|..];
    assert rest == owner + Slash + (repositoryName + path);
    assert rest[..|owner|] == owner;
    assert rest[|owner| + 1..] == repositoryName + path;
    assert Slash == ['/' as int];
    assert OccursAt(rest, Slash, |owner|);
    forall i | 0 <= i < |owner|
      ensures !OccursAt(rest, Slash, i)
    {
      assert !OccursAt(owner, Slash, i);
    }
    assert IndexOf(rest, Slash) == |owner|;
  }

  /**
    Since nothing is escaped, an owner holding "/" yields the same URL as a
    different owner/repository split: the URL alone cannot tell them apart.
  */
  lemma SlashInOwnerIsAmbiguous(a: JString, b: JString, repositoryName: JString, path: JString)
    ensures a + Slash + b != a
    ensures V2(a + Slash + b, repositoryName, path) == V2(a, b + Slash + repositoryName, path)
  {
  }
}
