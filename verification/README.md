# Bitbucket API client: request construction

This project models the pure logic of `ApiClient`. That is the class through which the Bitbucket pull-request builder plugin reads pull requests and comments and writes build statuses, approvals and comments back to Bitbucket. The model covers:

- the **build-status key normaliser** (`computeAPIKey` / `buildStatusKey`): it joins the client's key and an extension with `-`. A result longer than 40 characters is replaced by the lower-case hexadecimal SHA-1 of its UTF-8 bytes. If no SHA-1 provider exists, it is cut to 40 characters instead.
- the **URL builders** `v1`, `v2(path)` and `v2(owner, repositoryName, path)`. Each is plain concatenation onto a fixed base: owner, `/`, repository, path. Nothing is escaped.
- the **request** each public operation issues: HTTP verb, URL, form fields in order, and the client's credentials.
- the **success test** of `hasBuildStatus`: a substring search for `"state"` (with its quotes) in the response body.

Java strings are sequences of UTF-16 code units (`JavaText.JString`), because `String.length()`, `substring` and `indexOf` count code units. Java's `getBytes("UTF-8")` is modelled exactly, including the surrogate-pair and unpaired-surrogate cases, in `Utf8.Encode`. Commons Codec's `Hex.encodeHex` is modelled in `Hex.Encode`. Each has a decoder, and the round trips are proved. The UTF-8 decoder is strict, so the two UTF-8 round trips together show that `Utf8.Encode` is standard UTF-8 and not a variant such as CESU-8.

SHA-1 is not modelled. The platform's `MessageDigest` lookup is the parameter `ApiKey.HashProvider`: either `Unavailable` (`NoSuchAlgorithmException`) or any function whose results have type `Sha1Digest`, which fixes their length at 20 bytes.

Modules, in dependency order: `Wrappers` (option and thrown-exception results), `JavaText` (Java strings, `indexOf`, `contains`), `Utf8`, `Hex`, `Client` (client state and URL builders), `ApiKey` (key normaliser), `Operations` (the public operations).

Two behaviours of the code that are easy to misread. The model states both:

- The 40 limit counts UTF-16 code units, not UTF-8 bytes: `computeAPIKey` compares `String.length()` with 40 (ApiClient.java:116). A candidate of 40 units passes through unchanged even when its UTF-8 form takes up to 120 bytes.
- A null body makes `hasBuildStatus` throw `NullPointerException`; it never answers false. `send` returns null after a transport failure (ApiClient.java:248), and `hasBuildStatus` calls `contains` on that result (ApiClient.java:137). `Operations.HasBuildStatus` says so: a missing body gives `ThrowsNullPointer`.

One observation that is not a defect claim: `getPullRequestComments` takes an owner and a repository name but never uses them. It always reads the client's own repository. `Operations.CommentsIgnoreRepositoryArguments` states this.

## Model

| member | source | states |
|---|---|---|
| `JavaText.Contains` | src/main/java/bitbucketpullrequestbuilder/bitbucketpullrequestbuilder/bitbucket/ApiClient.java:137 | `s.contains(t)` holds exactly when `t` occurs at some position of `s` |
| `Utf8.Encode` | src/main/java/bitbucketpullrequestbuilder/bitbucketpullrequestbuilder/bitbucket/ApiClient.java:119 | `getBytes("UTF-8")` takes between one and three bytes per code unit, and maps ASCII text byte for byte |
| `Utf8.DecodeEncode` | src/main/java/bitbucketpullrequestbuilder/bitbucketpullrequestbuilder/bitbucket/ApiClient.java:119 | the UTF-8 bytes of a string without unpaired surrogates decode back to that string under a strict decoder that rejects overlong and surrogate forms |
| `Utf8.EncodeDecode` | src/main/java/bitbucketpullrequestbuilder/bitbucketpullrequestbuilder/bitbucket/ApiClient.java:119 | every byte sequence the strict decoder accepts is the UTF-8 encoding of a well-formed string |
| `Utf8.EncodingUnique` | src/main/java/bitbucketpullrequestbuilder/bitbucketpullrequestbuilder/bitbucket/ApiClient.java:119 | for a well-formed string, its UTF-8 bytes are exactly the bytes that decode to it: four bytes per surrogate pair, no overlong or CESU-8 forms |
| `Utf8.EncodeInjective` | src/main/java/bitbucketpullrequestbuilder/bitbucketpullrequestbuilder/bitbucket/ApiClient.java:119 | distinct well-formed strings reach SHA-1 as distinct byte sequences |
| `Utf8.UnpairedSurrogateCollides` | src/main/java/bitbucketpullrequestbuilder/bitbucketpullrequestbuilder/bitbucket/ApiClient.java:119 | an unpaired surrogate and `?` are different strings with the same UTF-8 bytes |
| `Hex.Encode` | src/main/java/bitbucketpullrequestbuilder/bitbucketpullrequestbuilder/bitbucket/ApiClient.java:119 | `encodeHex` gives two lower-case hexadecimal digits per byte |
| `Hex.DecodeEncode` | src/main/java/bitbucketpullrequestbuilder/bitbucketpullrequestbuilder/bitbucket/ApiClient.java:119 | reading the hexadecimal digits back gives the original bytes |
| `Hex.EncodeInjective` | src/main/java/bitbucketpullrequestbuilder/bitbucketpullrequestbuilder/bitbucket/ApiClient.java:119 | distinct digests give distinct hexadecimal keys |
| `Client.RepoUrl` | src/main/java/bitbucketpullrequestbuilder/bitbucketpullrequestbuilder/bitbucket/ApiClient.java:198-208 | a repository URL spells base, owner, one `/`, repository, path, with nothing escaped, added or dropped |
| `Client.V1` | src/main/java/bitbucketpullrequestbuilder/bitbucketpullrequestbuilder/bitbucket/ApiClient.java:198-200 | `v1(p)` spells the version-1 base, the client's owner, `/`, the client's repository, then `p` |
| `Client.V2` | src/main/java/bitbucketpullrequestbuilder/bitbucketpullrequestbuilder/bitbucket/ApiClient.java:206-208 | `v2(o, r, p)` spells the version-2 base, `o`, `/`, `r`, then `p` |
| `Client.V2Default` | src/main/java/bitbucketpullrequestbuilder/bitbucketpullrequestbuilder/bitbucket/ApiClient.java:202-204 | `v2(p)` is `v2` applied to the client's own owner and repository |
| `Client.SpellsUnique` | src/main/java/bitbucketpullrequestbuilder/bitbucketpullrequestbuilder/bitbucket/ApiClient.java:198-208 | the position-by-position description of a URL determines the URL completely |
| `Client.SplitRepoUrlInverts` | src/main/java/bitbucketpullrequestbuilder/bitbucketpullrequestbuilder/bitbucket/ApiClient.java:198-208 | for an owner without `/`, the owner and the remainder can be read back from the URL |
| `Client.SlashInOwnerIsAmbiguous` | src/main/java/bitbucketpullrequestbuilder/bitbucketpullrequestbuilder/bitbucket/ApiClient.java:206-208 | because nothing is escaped, owner `a/b` with repository `c` gives the same URL as owner `a` with repository `b/c` |
| `ApiKey.Candidate` | src/main/java/bitbucketpullrequestbuilder/bitbucketpullrequestbuilder/bitbucket/ApiClient.java:114 | the formatted candidate is the key, a `-` at index `length(key)`, then the extension |
| `ApiKey.HashedKey` | src/main/java/bitbucketpullrequestbuilder/bitbucketpullrequestbuilder/bitbucket/ApiClient.java:117-119 | hex of a 20-byte digest is exactly 40 lower-case hexadecimal digits |
| `ApiKey.ComputeApiKey` | src/main/java/bitbucketpullrequestbuilder/bitbucketpullrequestbuilder/bitbucket/ApiClient.java:113-129 | the key never exceeds 40 code units. A candidate of at most 40 is returned as is. A longer one becomes the hex SHA-1 of its UTF-8 bytes, or its first 40 code units when no provider exists |
| `ApiKey.BuildStatusKey` | src/main/java/bitbucketpullrequestbuilder/bitbucketpullrequestbuilder/bitbucket/ApiClient.java:131-133 | `buildStatusKey(k)` is `computeAPIKey(k)` for the client's key |
| `ApiKey.BoundaryIsInclusive` | src/main/java/bitbucketpullrequestbuilder/bitbucketpullrequestbuilder/bitbucket/ApiClient.java:116-128 | a candidate of exactly 40 code units is the key itself, and one of 41 never is |
| `ApiKey.HashedKeyShape` | src/main/java/bitbucketpullrequestbuilder/bitbucketpullrequestbuilder/bitbucket/ApiClient.java:116-119 | a hashed key has length 40, only `[0-9a-f]`, and decodes to the SHA-1 of the candidate's UTF-8 bytes |
| `ApiKey.PlainNeverMeetsHashed` | src/main/java/bitbucketpullrequestbuilder/bitbucketpullrequestbuilder/bitbucket/ApiClient.java:113-129 | a pass-through key (which holds `-`) never equals a hashed key (hex digits only) |
| `ApiKey.PlainKeysInjective` | src/main/java/bitbucketpullrequestbuilder/bitbucketpullrequestbuilder/bitbucket/ApiClient.java:114-128 | short candidates give equal keys exactly when their extensions are equal |
| `ApiKey.HashedKeysDifferUnlessDigestsCollide` | src/main/java/bitbucketpullrequestbuilder/bitbucketpullrequestbuilder/bitbucket/ApiClient.java:116-119 | distinct long well-formed extensions hash distinct messages, so equal keys imply a SHA-1 collision |
| `ApiKey.FallbackKeepsOnlyPrefix` | src/main/java/bitbucketpullrequestbuilder/bitbucketpullrequestbuilder/bitbucket/ApiClient.java:120-128 | without a provider, two long candidates get the same key exactly when their first 40 code units agree |
| `Operations.GetPullRequests` | src/main/java/bitbucketpullrequestbuilder/bitbucketpullrequestbuilder/bitbucket/ApiClient.java:82-84 | a version-2 GET of `/pullrequests/` in the client's repository, with no body |
| `Operations.GetPullRequestComments` | src/main/java/bitbucketpullrequestbuilder/bitbucketpullrequestbuilder/bitbucket/ApiClient.java:92-94 | a version-1 GET of `/pullrequests/{id}/comments` in the client's repository |
| `Operations.CommentsIgnoreRepositoryArguments` | src/main/java/bitbucketpullrequestbuilder/bitbucketpullrequestbuilder/bitbucket/ApiClient.java:92-94 | the comment listing is the same whatever owner and repository are passed, and reads back as the client's own |
| `Operations.HasBuildStatusRequest` | src/main/java/bitbucketpullrequestbuilder/bitbucketpullrequestbuilder/bitbucket/ApiClient.java:135-136 | a version-2 GET of `/commit/{rev}/statuses/build/{computed key}` in the given repository |
| `Operations.HasBuildStatus` | src/main/java/bitbucketpullrequestbuilder/bitbucketpullrequestbuilder/bitbucket/ApiClient.java:137 | for a body, true exactly when `"state"` occurs in it. A null body throws |
| `Operations.MarkerAnywhereCounts` | src/main/java/bitbucketpullrequestbuilder/bitbucketpullrequestbuilder/bitbucket/ApiClient.java:137 | any body holding `"state"` anywhere counts as an existing status, and one without it never does |
| `Operations.FieldNamesDistinct` | src/main/java/bitbucketpullrequestbuilder/bitbucketpullrequestbuilder/bitbucket/ApiClient.java:143-149 | the five status field names differ pairwise |
| `Operations.BuildStatusForm` | src/main/java/bitbucketpullrequestbuilder/bitbucketpullrequestbuilder/bitbucket/ApiClient.java:143-149 | the form's names are description, key, name, state, url, in that order, and each carries its value |
| `Operations.SetBuildStatus` | src/main/java/bitbucketpullrequestbuilder/bitbucketpullrequestbuilder/bitbucket/ApiClient.java:140-153 | a version-2 POST to `/commit/{rev}/statuses/build` in the given repository. Its form carries the comment, the computed key, the client's name, the state and the build URL |
| `Operations.StatusLookupAddressesPostedStatus` | src/main/java/bitbucketpullrequestbuilder/bitbucketpullrequestbuilder/bitbucket/ApiClient.java:135-149 | the status URL `hasBuildStatus` reads is the `setBuildStatus` URL, `/`, and the key field that POST sends |
| `Operations.StatusPostTargetsGivenRepository` | src/main/java/bitbucketpullrequestbuilder/bitbucketpullrequestbuilder/bitbucket/ApiClient.java:140-141 | for a slash-free owner, the status URL reads back as the owner and repository passed in, not the client's |
| `Operations.DeletePullRequestApproval` | src/main/java/bitbucketpullrequestbuilder/bitbucketpullrequestbuilder/bitbucket/ApiClient.java:155-157 | a version-2 DELETE of `/pullrequests/{id}/approve` |
| `Operations.PostPullRequestApproval` | src/main/java/bitbucketpullrequestbuilder/bitbucketpullrequestbuilder/bitbucket/ApiClient.java:170-173 | a version-2 POST of an empty form to `/pullrequests/{id}/approve` |
| `Operations.ApprovalUrlsAgree` | src/main/java/bitbucketpullrequestbuilder/bitbucketpullrequestbuilder/bitbucket/ApiClient.java:155-173 | approving and withdrawing an approval address the same URL with different verbs |
| `Operations.DeletePullRequestComment` | src/main/java/bitbucketpullrequestbuilder/bitbucketpullrequestbuilder/bitbucket/ApiClient.java:159-161 | a version-1 DELETE of `/pullrequests/{id}/comments/{commentId}` |
| `Operations.UpdatePullRequestComment` | src/main/java/bitbucketpullrequestbuilder/bitbucketpullrequestbuilder/bitbucket/ApiClient.java:163-168 | a version-1 PUT of the single field `content` to the comment's URL |
| `Operations.PostPullRequestComment` | src/main/java/bitbucketpullrequestbuilder/bitbucketpullrequestbuilder/bitbucket/ApiClient.java:181-186 | a version-1 POST of the single field `content` to `/pullrequests/{id}/comments` |
| `Operations.CommentUrlsAgree` | src/main/java/bitbucketpullrequestbuilder/bitbucketpullrequestbuilder/bitbucket/ApiClient.java:159-186 | update and delete address the same comment URL: the comment-list URL, `/`, and the comment id |

Every member is a pure function, so the same arguments always give the same key, URL and form. For `computeAPIKey` this holds for calls that do not overlap in time; see the `SHA1` line under "## Left out".

## Left out

- Transport (`send`, `get`, `post`, `put`, `delete`, `getHttpClient`, `HttpClientFactory`) is left out as I/O over Apache HttpClient. That covers proxy discovery through Jenkins, executing the request, reading the body and releasing the connection. Only its effect on a request's content is kept: the credentials attached preemptively (`Request.auth`). The body a GET returned is a parameter of `HasBuildStatus`.
- `parse` and the try/catch wrappers in `getPullRequests`, `getPullRequestComments`, `postPullRequestApproval` and `postPullRequestComment` are left out. They are JSON deserialisation with Jackson plus logging. For those operations only the request is modelled.
- The SHA-1 algorithm is left out. It is a parameter (`HashProvider`) constrained only to return 20 bytes.
- The lazily initialised static `SHA1` field and all logging are left out. The provider is passed in on every call instead.
- ApiKey.ComputeApiKey: assumes that no two `computeAPIKey` calls overlap. `SHA1` is one `MessageDigest` shared by every `ApiClient` (ApiClient.java:106), and `digest` updates and then resets it (ApiClient.java:119). `MessageDigest` is not thread-safe, so two builds hashing at the same time can mix their inputs and get a wrong key. The lazy initialisation on line 118 is unsynchronised too. The model's key is the one a call computes when it runs alone.
- `UnsupportedEncodingException` from `getBytes("UTF-8")` is left out, because the UTF-8 charset is always present. In the code it would take the same truncation path as a missing provider.
- Which hash function the platform supplies is left open. A provider is any 20-byte function, whereas the platform's SHA-1 is one fixed function. Every statement about hashed keys therefore holds for any digest function, and none relies on SHA-1 being collision-resistant.
- Null strings are left out. Every string argument is a non-null `JString`. Java would render a null key, extension or path fragment as the text `null` in `String.format` and in `+`. A null form value would be handled by the HTTP library.
- How the transport serialises a form (`EncodingUtil.formUrlEncode` for PUT, HttpClient's own encoding for POST) is left out. A form is the ordered list of name/value pairs.
- `BuildState.java` is not part of this model. `SetBuildStatus` takes the text `state.toString()` yields.
- `getName` is left out: it only returns the `name` field of `Client.ApiClient`.
