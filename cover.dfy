/** The AniList cover lookup `fetch_anilist_cover`: a retry loop in ki.py,
    kot.py and rot.py, a single guarded attempt in mkv.py. Each HTTP
    attempt is answered by an oracle, the n-th answer being `respond(n)`;
    the two-second pause after a transport error is recorded as a count. */
module Cover {
  import opened Common

  /** What the GraphQL reply body yields when read as
      data.get('data', {}).get('Media', {}).get('coverImage', {}).get('large'):
      a URL, nothing (a key missing on the way, or a null `large`), or an
      error (a null `Media` or `coverImage`, whose `.get` raises). */
  datatype Body = CoverField(url: string) | NoCoverField | BrokenBody

  /** One attempt: an HTTP reply with its status, or a requests exception. */
  datatype Response = Http(status: int, body: Body) | RequestError

  /** How a run of the retry loop ended: its result, how many attempts it
      made and how many times it slept. */
  datatype Fetch = Fetch(result: CoverResult, attempts: nat, sleeps: nat)

  /** The result a status-200 reply gives. */
  function BodyResult(b: Body): CoverResult {
    match b
    case CoverField(url) => CoverUrl(url)
    case NoCoverField => NoCover
    case BrokenBody => CoverFailed
  }

  /** The loop of fetch_anilist_cover from attempt k on, for range(retries). */
  function FetchFrom(respond: nat -> Response, k: nat, retries: int): Fetch
    decreases retries - k
  {
    if k >= retries then Fetch(NoCover, k, 0)
    else match respond(k)
      case Http(status, body) =>
        if status == 200 then Fetch(BodyResult(body), k + 1, 0)
        else FetchFrom(respond, k + 1, retries)
      case RequestError =>
        var rest := FetchFrom(respond, k + 1, retries);
        Fetch(rest.result, rest.attempts, rest.sleeps + 1)
  }

  /** The number of transport errors among the answers k .. n-1. */
  function ErrorsBetween(respond: nat -> Response, k: nat, n: nat): nat
    decreases n - k
  {
    if k >= n then 0
    else (if respond(k).RequestError? then 1 else 0) + ErrorsBetween(respond, k + 1, n)
  }

  /** fetch_anilist_cover in ki.py, kot.py and rot.py. */
  method FetchAnilistCover(respond: nat -> Response, retries: int) returns (result: CoverResult, attempts: nat, sleeps: nat)
    ensures Fetch(result, attempts, sleeps) == FetchFrom(respond, 0, retries)
  {
    var k: nat := 0;
    sleeps := 0;
    while k < retries
      invariant FetchFrom(respond, 0, retries) ==
                var rest := FetchFrom(respond, k, retries); Fetch(rest.result, rest.attempts, rest.sleeps + sleeps)
      decreases retries - k
    {
      var answer := respond(k);
      if answer.RequestError? {
        sleeps := sleeps + 1;
      } else if answer.status == 200 {
        result, attempts := BodyResult(answer.body), k + 1;
        return;
      }
      k := k + 1;
    }
    result, attempts := NoCover, k;
  }

  /** The loop makes at most `retries` attempts (none for a non-positive
      count), sleeps once per transport error it met and never otherwise,
      and every attempt before the last was answered by something other
      than status 200. */
  lemma {:induction false} FetchBounds(respond: nat -> Response, k: nat, retries: int)
    requires k <= retries
    ensures var f := FetchFrom(respond, k, retries);
            k <= f.attempts <= retries
            && f.sleeps == ErrorsBetween(respond, k, f.attempts)
            && (forall j :: k <= j < f.attempts - 1 ==> !(respond(j).Http? && respond(j).status == 200))
    decreases retries - k
  {
    if k < retries {
      FetchBounds(respond, k + 1, retries);
    }
  }

  /** The loop stops at the first status-200 reply and takes its result from
      that reply's body, a missing cover field giving no URL; with no such
      reply among the allowed attempts, it gives no URL after all of them. */
  lemma {:induction false} FetchResult(respond: nat -> Response, k: nat, retries: int)
    requires k <= retries
    ensures var f := FetchFrom(respond, k, retries);
            if f.attempts > k && respond(f.attempts - 1).Http? && respond(f.attempts - 1).status == 200 then
              f.result == BodyResult(respond(f.attempts - 1).body)
            else
              f.result == NoCover && f.attempts == retries
    ensures (forall j :: k <= j < retries ==> !(respond(j).Http? && respond(j).status == 200)) ==>
              FetchFrom(respond, k, retries) == Fetch(NoCover, retries, ErrorsBetween(respond, k, retries))
    decreases retries - k
  {
    if k < retries {
      FetchResult(respond, k + 1, retries);
    }
  }

  /** When every remaining attempt meets a transport error, the loop uses
      them all, sleeps after each and gives no URL. */
  lemma {:induction false} FetchAllErrors(respond: nat -> Response, k: nat, retries: int)
    requires k <= retries
    requires forall j: nat :: k <= j < retries ==> respond(j) == RequestError
    ensures FetchFrom(respond, k, retries) == Fetch(NoCover, retries, retries - k)
    decreases retries - k
  {
    if k < retries {
      FetchAllErrors(respond, k + 1, retries);
    }
  }

  /** The catalog as auto_rename_with_anitopy sees it: the k-th lookup of a
      search string runs the retry loop against that lookup's answers. */
  function Catalog(answers: (string, nat) -> (nat -> Response), retries: int): CoverSearch {
    (query: string, k: nat) => FetchFrom(answers(query, k), 0, retries).result
  }

  /** The first status-200 reply among attempts k .. retries-1 exists and
      its body is broken. */
  predicate BrokenFirst(respond: nat -> Response, k: nat, retries: int) {
    exists j: nat :: k <= j < retries && respond(j) == Http(200, BrokenBody)
      && forall i: nat :: k <= i < j ==> !(respond(i).Http? && respond(i).status == 200)
  }

  /** The loop lets an error escape exactly when the first status-200
      reply it meets has a broken body. */
  lemma {:induction false} FetchFails(respond: nat -> Response, k: nat, retries: int)
    ensures FetchFrom(respond, k, retries).result.CoverFailed? <==> BrokenFirst(respond, k, retries)
    decreases retries - k
  {
    if k < retries {
      FetchFails(respond, k + 1, retries);
      if respond(k).Http? && respond(k).status == 200 {
        if respond(k).body == BrokenBody {
          assert respond(k) == Http(200, BrokenBody);
        }
      } else {
        if BrokenFirst(respond, k + 1, retries) {
          var j: nat :| k + 1 <= j < retries && respond(j) == Http(200, BrokenBody)
            && forall i: nat :: k + 1 <= i < j ==> !(respond(i).Http? && respond(i).status == 200);
          assert k <= j < retries && respond(j) == Http(200, BrokenBody)
            && forall i: nat :: k <= i < j ==> !(respond(i).Http? && respond(i).status == 200);
        }
        if BrokenFirst(respond, k, retries) {
          var j: nat :| k <= j < retries && respond(j) == Http(200, BrokenBody)
            && forall i: nat :: k <= i < j ==> !(respond(i).Http? && respond(i).status == 200);
          assert j != k;
          assert k + 1 <= j < retries && respond(j) == Http(200, BrokenBody)
            && forall i: nat :: k + 1 <= i < j ==> !(respond(i).Http? && respond(i).status == 200);
        }
      }
    }
  }

  /** A lookup of the catalog raises exactly when, among that lookup's
      answers, the first status-200 reply within the retries has a broken
      body; with no status-200 reply at all it gives no URL. */
  lemma CatalogRaises(answers: (string, nat) -> (nat -> Response), retries: int, query: string, k: nat)
    ensures Catalog(answers, retries)(query, k).CoverFailed? <==> BrokenFirst(answers(query, k), 0, retries)
    ensures (forall j: nat :: j < retries ==> !(answers(query, k)(j).Http? && answers(query, k)(j).status == 200)) ==>
              Catalog(answers, retries)(query, k) == NoCover
  {
    FetchFails(answers(query, k), 0, retries);
    if retries >= 0 {
      FetchResult(answers(query, k), 0, retries);
    }
  }

  /** fetch_anilist_cover in mkv.py: one attempt, every error absorbed. */
  function FetchOnce(r: Response): (result: CoverResult)
    ensures !result.CoverFailed?
  {
    match r
    case Http(status, body) => if status == 200 && body.CoverField? then CoverUrl(body.url) else NoCover
    case RequestError => NoCover
  }

  /** The single attempt of mkv.py agrees with the first attempt of the
      retry loop except that an error in the body means no URL. */
  lemma FetchOnceAgrees(respond: nat -> Response)
    ensures FetchFrom(respond, 0, 1).result.CoverFailed? ==> FetchOnce(respond(0)) == NoCover
    ensures !FetchFrom(respond, 0, 1).result.CoverFailed? ==>
              FetchOnce(respond(0)) == FetchFrom(respond, 0, 1).result
  {
  }
}
