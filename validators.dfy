/** The input schemas that the user router's procedures declare with zod
    (src/server/api/routers/user.ts). An input that fails its schema never
    reaches the procedure: tRPC answers BAD_REQUEST. */
module Validators {
  import opened Wrappers

  /** The tRPC error codes the router raises. */
  datatype ErrorCode = BadRequest | Conflict | NotFound | InternalServerError

  /** One character of the class `[a-zA-Z0-9_]`. */
  predicate UsernameChar(c: char)
  {
    ('a' <= c <= 'z') || ('A' <= c <= 'Z') || ('0' <= c <= '9') || c == '_'
  }

  /** `z.string().min(3).max(20).regex(/^[a-zA-Z0-9_]+$/)`. */
  predicate ValidUsername(s: string)
  {
    3 <= |s| <= 20 && forall i | 0 <= i < |s| :: UsernameChar(s[i])
  }

  /** The characters of `s` match `[a-zA-Z0-9_]*`, read left to right. */
  predicate WordChars(s: string)
  {
    s == [] || (UsernameChar(s[0]) && WordChars(s[1..]))
  }

  /** `s` matches the anchored regular expression `^[a-zA-Z0-9_]+$`: one
      character of the class, then any number more. */
  predicate MatchesUsernameRegex(s: string)
  {
    s != [] && UsernameChar(s[0]) && WordChars(s[1..])
  }

  lemma {:induction false} WordCharsAll(s: string)
    ensures WordChars(s) <==> forall i | 0 <= i < |s| :: UsernameChar(s[i])
  {
    if s != [] {
      WordCharsAll(s[1..]);
      assert forall i | 1 <= i < |s| :: s[i] == s[1..][i - 1];
    }
  }

  /** A username is accepted exactly when it has 3 to 20 characters and
      matches the regular expression. */
  lemma ValidUsernameIsRegex(s: string)
    ensures ValidUsername(s) <==> 3 <= |s| <= 20 && MatchesUsernameRegex(s)
  {
    WordCharsAll(s);
    if s != [] {
      WordCharsAll(s[1..]);
      assert forall i | 1 <= i < |s| :: s[i] == s[1..][i - 1];
    }
  }

  /** `z.string().max(160).nullable()`. */
  predicate ValidBio(bio: Option<string>)
  {
    bio.None? || |bio.value| <= 160
  }

  /** The input of `updateProfile`; `image` and `cover` are any string or null. */
  datatype ProfileInput = ProfileInput(
    username: string,
    bio: Option<string>,
    image: Option<string>,
    cover: Option<string>)

  predicate ValidProfileInput(input: ProfileInput)
  {
    ValidUsername(input.username) && ValidBio(input.bio)
  }

  /** The `updateProfile` schema accepts exactly the inputs whose username
      has 3 to 20 characters and matches `^[a-zA-Z0-9_]+$`, and whose bio is
      null or at most 160 characters; image and cover are unconstrained. */
  lemma ValidProfileInputIff(input: ProfileInput)
    ensures ValidProfileInput(input) <==>
      && 3 <= |input.username| <= 20
      && MatchesUsernameRegex(input.username)
      && (input.bio.None? || |input.bio.value| <= 160)
  {
    ValidUsernameIsRegex(input.username);
  }

  /** `z.number().min(lo).max(hi).default(dflt)` applied to an optional page
      size: an omitted size takes the default, a given one must lie in
      [lo, hi]. */
  function ResolveLimit(given: Option<int>, lo: int, hi: int, dflt: int): (r: Result<int, ErrorCode>)
    requires lo <= dflt <= hi
    ensures r.Ok? ==> lo <= r.value <= hi
    ensures r.Err? ==> r.error == BadRequest
    ensures given.None? ==> r == Ok(dflt)
    ensures given.Some? ==> (r.Ok? <==> lo <= given.value <= hi)
    ensures given.Some? && r.Ok? ==> r.value == given.value
  {
    match given
    case None => Ok(dflt)
    case Some(n) => if lo <= n <= hi then Ok(n) else Err(BadRequest)
  }

  /** The `limit` of `getFollowers` and `getFollowing`: 1 to 100, default 50. */
  function FollowListLimit(given: Option<int>): (r: Result<int, ErrorCode>)
    ensures r.Ok? ==> 1 <= r.value <= 100
    ensures given.None? ==> r == Ok(50)
  {
    ResolveLimit(given, 1, 100, 50)
  }

  /** The `limit` of `getRandomSuggestions`: 1 to 10, default 3. */
  function SuggestionLimit(given: Option<int>): (r: Result<int, ErrorCode>)
    ensures r.Ok? ==> 1 <= r.value <= 10
    ensures given.None? ==> r == Ok(3)
  {
    ResolveLimit(given, 1, 10, 3)
  }

  /** The `limit` of `search`: 1 to 10, default 5. */
  function SearchLimit(given: Option<int>): (r: Result<int, ErrorCode>)
    ensures r.Ok? ==> 1 <= r.value <= 10
    ensures given.None? ==> r == Ok(5)
  {
    ResolveLimit(given, 1, 10, 5)
  }

  /** The `query` of `search`: `z.string().min(1).max(50)`. */
  predicate ValidSearchQuery(query: string)
  {
    1 <= |query| <= 50
  }
}
