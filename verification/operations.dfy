/**
  The public operations of `ApiClient`, reduced to the requests they issue.
  Each operation picks an API version, builds a path from its arguments,
  optionally lists form fields, and hands the request to the transport,
  which attaches the client's credentials preemptively. The transport
  itself and JSON parsing of the responses are outside the model; the one
  decision taken on a response, the success test of `hasBuildStatus`, is
  modelled over the body the transport returned.
*/
module Operations {
  import opened JavaText
  import opened Wrappers
  import opened Client
  import opened ApiKey

  datatype HttpMethod = Get | Post | Put | Delete

  /** One form field, as `NameValuePair`. */
  datatype NameValuePair = NameValuePair(name: JString, value: JString)

  /** GET and DELETE requests carry no body; POST and PUT carry form fields, sent as UTF-8. */
  datatype Body = NoBody | Form(fields: seq<NameValuePair>)

  /** A request as `send` issues it: HTTP verb, URL, body, and the basic-auth credentials it sends up front. */
  datatype Request = Request(verb: HttpMethod, url: JString, body: Body, auth: Credentials)

  const PullRequestsPath: JString := Literal("/pullrequests/")
  const CommentsSuffix: JString := Literal("/comments")
  const CommentSuffix: JString := Literal("/comments/")
  const ApproveSuffix: JString := Literal("/approve")
  const CommitPath: JString := Literal("/commit/")
  const StatusesSuffix: JString := Literal("/statuses/build")
  const StatusSuffix: JString := Literal("/statuses/build/")

  const DescriptionField: JString := Literal("description")
  const KeyField: JString := Literal("key")
  const NameField: JString := Literal("name")
  const StateField: JString := Literal("state")
  const UrlField: JString := Literal("url")
  const ContentField: JString := Literal("content")

  /** What `hasBuildStatus` looks for in the response body: `"state"`, quotes included. */
  const StateMarker: JString := Literal("\"state\"")

  /** The field names of a form, in order. */
  function Names(fields: seq<NameValuePair>): seq<JString>
  {
    seq(|fields|, i requires 0 <= i < |fields| => fields[i].name)
  }

  /** The value of the first field called `name`, as a server reading the form sees it. */
  function Lookup(fields: seq<NameValuePair>, name: JString): (v: Option<JString>)
    ensures v.None? <==> forall i :: 0 <= i < |fields| ==> fields[i].name != name
    ensures v.Some? ==> exists i :: 0 <= i < |fields| && fields[i] == NameValuePair(name, v.value)
  {
    if |fields| == 0 then None
    else if fields[0].name == name then Some(fields[0].value)
    else Lookup(fields[1..], name)
  }

  /** Looking a name up finds the first field that carries it. */
  lemma {:induction false} LookupFindsFirst(fields: seq<NameValuePair>, name: JString, i: nat)
    requires i < |fields| && fields[i].name == name
    requires forall j :: 0 <= j < i ==> fields[j].name != name
    ensures Lookup(fields, name) == Some(fields[i].value)
  {
    if i > 0 {
      LookupFindsFirst(fields[1..], name, i - 1);
    }
  }

  /** The path of one pull request's comment list. */
  function CommentsPath(pullRequestId: JString): JString
  {
    PullRequestsPath + pullRequestId + CommentsSuffix
  }

  /** The path of one comment of a pull request. */
  function CommentPath(pullRequestId: JString, commentId: JString): JString
  {
    PullRequestsPath + pullRequestId + CommentSuffix + commentId
  }

  /** The path of the caller's approval of a pull request. */
  function ApprovePath(pullRequestId: JString): JString
  {
    PullRequestsPath + pullRequestId + ApproveSuffix
  }

  /** The path of the build statuses of one commit. */
  function StatusesPath(revision: JString): JString
  {
    CommitPath + revision + StatusesSuffix
  }

  /** The path of the build status of one commit under one key. */
  function StatusPath(revision: JString, key: JString): JString
  {
    CommitPath + revision + StatusSuffix + key
  }

  /** `getPullRequests()`: a version-2 GET of the client's pull-request list. */
  function GetPullRequests(c: ApiClient): (r: Request)
    ensures r.verb == Get && r.body == NoBody && r.auth == c.credentials
    ensures Spells(r.url, V2ApiBaseUrl, c.owner, c.repositoryName, PullRequestsPath)
  {
    Request(Get, V2Default(c, PullRequestsPath), NoBody, c.credentials)
  }

  /**
    `getPullRequestComments(commentOwnerName, commentRepositoryName, pullRequestId)`:
    a version-1 GET of one pull request's comments. The owner and repository
    arguments are accepted but not used; the client's own are.
  */
  function GetPullRequestComments(c: ApiClient, commentOwnerName: JString, commentRepositoryName: JString,
                                  pullRequestId: JString): (r: Request)
    ensures r.verb == Get && r.body == NoBody && r.auth == c.credentials
    ensures Spells(r.url, V1ApiBaseUrl, c.owner, c.repositoryName, CommentsPath(pullRequestId))
  {
    Request(Get, V1(c, CommentsPath(pullRequestId)), NoBody, c.credentials)
  }

  /** The GET `hasBuildStatus` issues: the status of one commit under the normalised key. */
  function HasBuildStatusRequest(c: ApiClient, owner: JString, repositoryName: JString, revision: JString,
                                 keyEx: JString, provider: HashProvider): (r: Request)
    ensures r.verb == Get && r.body == NoBody && r.auth == c.credentials
    ensures Spells(r.url, V2ApiBaseUrl, owner, repositoryName, StatusPath(revision, ComputeApiKey(c.key, keyEx, provider)))
  {
    var url := V2(owner, repositoryName, StatusPath(revision, ComputeApiKey(c.key, keyEx, provider)));
    Request(Get, url, NoBody, c.credentials)
  }

  /**
    The success test of `hasBuildStatus`: `body.contains("\"state\"")` on
    what the GET returned. The transport returns null on failure, and calling
    `contains` on it throws.
  */
  function HasBuildStatus(response: Option<JString>): (r: Thrown<bool>)
    ensures response.None? <==> r.ThrowsNullPointer?
    ensures response.Some? ==> (r.value <==> exists i :: OccursAt(response.value, StateMarker, i))
  {
    match response
    case None => ThrowsNullPointer
    case Some(body) => Returns(Contains(body, StateMarker))
  }

  /**
    The form `setBuildStatus` posts: the fields description, key, name,
    state and url, in that order, each carrying the value given for it.
  */
  function BuildStatusForm(description: JString, key: JString, name: JString, state: JString,
                           url: JString): (fields: seq<NameValuePair>)
    ensures Names(fields) == [DescriptionField, KeyField, NameField, StateField, UrlField]
    ensures Lookup(fields, DescriptionField) == Some(description)
    ensures Lookup(fields, KeyField) == Some(key)
    ensures Lookup(fields, NameField) == Some(name)
    ensures Lookup(fields, StateField) == Some(state)
    ensures Lookup(fields, UrlField) == Some(url)
  {
    var data := [
      NameValuePair(DescriptionField, description),
      NameValuePair(KeyField, key),
      NameValuePair(NameField, name),
      NameValuePair(StateField, state),
      NameValuePair(UrlField, url)
    ];
    StatusFieldsFound(data);
    data
  }

  /** Each status field name, looked up in a form listing them in order, finds its own field. */
  lemma StatusFieldsFound(data: seq<NameValuePair>)
    requires Names(data) == [DescriptionField, KeyField, NameField, StateField, UrlField]
    ensures Lookup(data, DescriptionField) == Some(data[0].value)
    ensures Lookup(data, KeyField) == Some(data[1].value)
    ensures Lookup(data, NameField) == Some(data[2].value)
    ensures Lookup(data, StateField) == Some(data[3].value)
    ensures Lookup(data, UrlField) == Some(data[4].value)
  {
    FieldNamesDistinct();
    assert forall i :: 0 <= i < 5 ==> data[i].name == Names(data)[i];
    LookupFindsFirst(data, DescriptionField, 0);
    LookupFindsFirst(data, KeyField, 1);
    LookupFindsFirst(data, NameField, 2);
    LookupFindsFirst(data, StateField, 3);
    LookupFindsFirst(data, UrlField, 4);
  }

  /**
    `setBuildStatus(...)`: a version-2 POST to the commit's statuses whose
    form carries the comment, the normalised key, the client's name, the
    state and the build URL. `state` is the text `BuildState.toString()` gives.
  */
  function SetBuildStatus(c: ApiClient, owner: JString, repositoryName: JString, revision: JString,
                          state: JString, buildUrl: JString, comment: JString, keyEx: JString,
                          provider: HashProvider): (r: Request)
    ensures r.verb == Post && r.auth == c.credentials && r.body.Form?
    ensures Spells(r.url, V2ApiBaseUrl, owner, repositoryName, StatusesPath(revision))
    ensures Names(r.body.fields) == [DescriptionField, KeyField, NameField, StateField, UrlField]
    ensures Lookup(r.body.fields, DescriptionField) == Some(comment)
    ensures Lookup(r.body.fields, KeyField) == Some(ComputeApiKey(c.key, keyEx, provider))
    ensures Lookup(r.body.fields, NameField) == Some(c.name)
    ensures Lookup(r.body.fields, StateField) == Some(state)
    ensures Lookup(r.body.fields, UrlField) == Some(buildUrl)
  {
    var url := V2(owner, repositoryName, StatusesPath(revision));
    var computedKey := ComputeApiKey(c.key, keyEx, provider);
    Request(Post, url, Form(BuildStatusForm(comment, computedKey, c.name, state, buildUrl)), c.credentials)
  }

  /** The five status field names differ pairwise, so a lookup by name finds the intended field. */
  lemma FieldNamesDistinct()
    ensures DescriptionField != KeyField && DescriptionField != NameField
    ensures DescriptionField != StateField && DescriptionField != UrlField
    ensures KeyField != NameField && KeyField != StateField && KeyField != UrlField
    ensures NameField != StateField && NameField != UrlField && StateField != UrlField
  {
    assert KeyField[0] != UrlField[0];
  }

  /** `deletePullRequestApproval(pullRequestId)`: a version-2 DELETE of the approval. */
  function DeletePullRequestApproval(c: ApiClient, pullRequestId: JString): (r: Request)
    ensures r.verb == Delete && r.body == NoBody && r.auth == c.credentials
    ensures Spells(r.url, V2ApiBaseUrl, c.owner, c.repositoryName, ApprovePath(pullRequestId))
  {
    Request(Delete, V2Default(c, ApprovePath(pullRequestId)), NoBody, c.credentials)
  }

  /** `deletePullRequestComment(pullRequestId, commentId)`: a version-1 DELETE of one comment. */
  function DeletePullRequestComment(c: ApiClient, pullRequestId: JString, commentId: JString): (r: Request)
    ensures r.verb == Delete && r.body == NoBody && r.auth == c.credentials
    ensures Spells(r.url, V1ApiBaseUrl, c.owner, c.repositoryName, CommentPath(pullRequestId, commentId))
  {
    Request(Delete, V1(c, CommentPath(pullRequestId, commentId)), NoBody, c.credentials)
  }

  /** `updatePullRequestComment(pullRequestId, content, commentId)`: a version-1 PUT of the single field content. */
  function UpdatePullRequestComment(c: ApiClient, pullRequestId: JString, content: JString, commentId: JString): (r: Request)
    ensures r.verb == Put && r.auth == c.credentials
    ensures Spells(r.url, V1ApiBaseUrl, c.owner, c.repositoryName, CommentPath(pullRequestId, commentId))
    ensures r.body == Form([NameValuePair(ContentField, content)])
  {
    var data := [NameValuePair(ContentField, content)];
    Request(Put, V1(c, CommentPath(pullRequestId, commentId)), Form(data), c.credentials)
  }

  /** `postPullRequestApproval(pullRequestId)`: a version-2 POST with an empty form. */
  function PostPullRequestApproval(c: ApiClient, pullRequestId: JString): (r: Request)
    ensures r.verb == Post && r.auth == c.credentials
    ensures Spells(r.url, V2ApiBaseUrl, c.owner, c.repositoryName, ApprovePath(pullRequestId))
    ensures r.body == Form([])
  {
    Request(Post, V2Default(c, ApprovePath(pullRequestId)), Form([]), c.credentials)
  }

  /** `postPullRequestComment(pullRequestId, content)`: a version-1 POST of the single field content. */
  function PostPullRequestComment(c: ApiClient, pullRequestId: JString, content: JString): (r: Request)
    ensures r.verb == Post && r.auth == c.credentials
    ensures Spells(r.url, V1ApiBaseUrl, c.owner, c.repositoryName, CommentsPath(pullRequestId))
    ensures r.body == Form([NameValuePair(ContentField, content)])
  {
    var data := [NameValuePair(ContentField, content)];
    Request(Post, V1(c, CommentsPath(pullRequestId)), Form(data), c.credentials)
  }

  /**
    The status `hasBuildStatus` looks up is the one `setBuildStatus` creates:
    its URL is the POST's URL, a slash, and the key field the POST carries.
  */
  lemma StatusLookupAddressesPostedStatus(c: ApiClient, owner: JString, repositoryName: JString, revision: JString,
                                          state: JString, buildUrl: JString, comment: JString, keyEx: JString,
                                          provider: HashProvider)
    ensures var post := SetBuildStatus(c, owner, repositoryName, revision, state, buildUrl, comment, keyEx, provider);
            var lookup := HasBuildStatusRequest(c, owner, repositoryName, revision, keyEx, provider);
            && post.body.Form?
            && Lookup(post.body.fields, KeyField).Some?
            && lookup.url == post.url + Slash + Lookup(post.body.fields, KeyField).value
  {
    var key := ComputeApiKey(c.key, keyEx, provider);
    assert StatusSuffix == StatusesSuffix + Slash;
    assert StatusPath(revision, key) == StatusesPath(revision) + Slash + key;
  }

  /**
    Updating and deleting a comment address the same resource: the comment
    list `postPullRequestComment` posts to, a slash, and the comment id.
  */
  lemma CommentUrlsAgree(c: ApiClient, pullRequestId: JString, commentId: JString, content: JString, newContent: JString)
    ensures UpdatePullRequestComment(c, pullRequestId, newContent, commentId).url
            == DeletePullRequestComment(c, pullRequestId, commentId).url
    ensures DeletePullRequestComment(c, pullRequestId, commentId).url
            == PostPullRequestComment(c, pullRequestId, content).url + Slash + commentId
  {
  }

  /** Approving and withdrawing an approval address the same resource, with opposite verbs. */
  lemma ApprovalUrlsAgree(c: ApiClient, pullRequestId: JString)
    ensures PostPullRequestApproval(c, pullRequestId).url == DeletePullRequestApproval(c, pullRequestId).url
    ensures PostPullRequestApproval(c, pullRequestId).verb != DeletePullRequestApproval(c, pullRequestId).verb
  {
  }

  /** The comment listing ignores its owner and repository arguments: it always reads the client's own repository. */
  lemma CommentsIgnoreRepositoryArguments(c: ApiClient, owner1: JString, repositoryName1: JString,
                                          owner2: JString, repositoryName2: JString, pullRequestId: JString)
    ensures GetPullRequestComments(c, owner1, repositoryName1, pullRequestId)
            == GetPullRequestComments(c, owner2, repositoryName2, pullRequestId)
    ensures !Contains(c.owner, Slash) ==>
              SplitRepoUrl(V1ApiBaseUrl, GetPullRequestComments(c, owner1, repositoryName1, pullRequestId).url)
              == Some((c.owner, c.repositoryName + CommentsPath(pullRequestId)))
  {
    if !Contains(c.owner, Slash) {
      SplitRepoUrlInverts(V1ApiBaseUrl, c.owner, c.repositoryName, CommentsPath(pullRequestId));
    }
  }

  /**
    Build statuses go to the repository named in the call, not the client's
    own: for a slash-free owner the URL reads back as that owner and repository.
  */
  lemma StatusPostTargetsGivenRepository(c: ApiClient, owner: JString, repositoryName: JString, revision: JString,
                                         state: JString, buildUrl: JString, comment: JString, keyEx: JString,
                                         provider: HashProvider)
    requires !Contains(owner, Slash)
    ensures SplitRepoUrl(V2ApiBaseUrl, SetBuildStatus(c, owner, repositoryName, revision, state, buildUrl, comment, keyEx, provider).url)
            == Some((owner, repositoryName + StatusesPath(revision)))
  {
    SplitRepoUrlInverts(V2ApiBaseUrl, owner, repositoryName, StatusesPath(revision));
  }

  /**
    The success test looks only for the marker: any body holding `"state"`
    anywhere counts as an existing status, whatever surrounds it, and a body
    without it never does.
  */
  lemma MarkerAnywhereCounts(before: JString, after: JString, other: JString)
    requires !Contains(other, StateMarker)
    ensures HasBuildStatus(Some(before + StateMarker + after)) == Returns(true)
    ensures HasBuildStatus(Some(other)) == Returns(false)
  {
    var body := before + StateMarker + after;
    assert body[|before|..|before| + |StateMarker|] == StateMarker;
    assert OccursAt(body, StateMarker, |before|);
  }
}
