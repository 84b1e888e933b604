/**
 A proxy session: the SSL-strip hooks see a sequence of exchanges, each
 request rewritten with the registry as it stands, each response then
 rewritten and allowed to teach the registry a new host. The one
 registry is shared by every exchange of the session.
 */
module Session {
  import opened Text
  import opened Headers
  import opened SslStrip

  datatype Exchange = Exchange(request: Request, response: Response)

  /** The hosts some response among `xs` teaches the registry. */
  ghost predicate LearnedFrom(xs: seq<Exchange>, hostOf: string -> string, x: string)
  {
    exists j | 0 <= j < |xs| :: Learns(xs[j].response, hostOf, x)
  }

  /** One exchange: the request sees the registry as it stands, then the
      response may extend it. */
  function Step(x: Exchange, secureHosts: Registry, hostOf: string -> string): (out: (Exchange, Registry))
    ensures forall h :: h in out.1 <==> h in secureHosts || Learns(x.response, hostOf, h)
  {
    RewriteResponseSpec(x.response, secureHosts, hostOf);
    var resp := RewriteResponse(x.response, secureHosts, hostOf);
    (Exchange(RewriteRequest(x.request, secureHosts), resp.0), resp.1)
  }

  /** Threads a state through `f` over `xs`, collecting the outputs. */
  function Fold<X, S>(xs: seq<X>, s: S, f: (X, S) -> (X, S)): (out: (seq<X>, S))
    ensures |out.0| == |xs|
    decreases |xs|
  {
    if xs == [] then ([], s)
    else
      var p := f(xs[0], s);
      var rest := Fold(xs[1..], p.1, f);
      ([p.0] + rest.0, rest.1)
  }

  /** Element `k` is `f` applied with the state the first `k` elements left. */
  lemma {:induction false} FoldAt<X, S>(xs: seq<X>, s: S, f: (X, S) -> (X, S), k: nat)
    requires k < |xs|
    ensures Fold(xs, s, f).0[k] == f(xs[k], Fold(xs[..k], s, f).1).0
    decreases k
  {
    if k > 0 {
      var p := f(xs[0], s);
      FoldAt(xs[1..], p.1, f, k - 1);
      assert xs[1..][k - 1] == xs[k];
      var pre := xs[..k];
      assert pre[0] == xs[0];
      assert pre[1..] == xs[1..][..k - 1];
    } else {
      assert xs[..0] == [];
    }
  }

  /** Runs the hooks over the exchanges in order and returns the rewritten
      exchanges and the final registry; `RunRegistry` and `RunStepAt` state
      what it computes. */
  function Run(xs: seq<Exchange>, secureHosts: Registry, hostOf: string -> string): (out: (seq<Exchange>, Registry))
    ensures |out.0| == |xs|
  {
    Fold(xs, secureHosts, (x, r) => Step(x, r, hostOf))
  }

  /** The registry ends up holding the hosts it started with and exactly
      the hosts the responses' HTTPS redirects name. */
  lemma {:induction false} RunRegistry(xs: seq<Exchange>, secureHosts: Registry, hostOf: string -> string)
    ensures secureHosts <= Run(xs, secureHosts, hostOf).1
    ensures forall x :: x in Run(xs, secureHosts, hostOf).1 <==> x in secureHosts || LearnedFrom(xs, hostOf, x)
    decreases |xs|
  {
    if xs != [] {
      var p := Step(xs[0], secureHosts, hostOf);
      assert Run(xs, secureHosts, hostOf).1 == Run(xs[1..], p.1, hostOf).1;
      RunRegistry(xs[1..], p.1, hostOf);
      LearnedFromCons(xs, hostOf);
    }
  }

  lemma LearnedFromCons(xs: seq<Exchange>, hostOf: string -> string)
    requires xs != []
    ensures forall x :: LearnedFrom(xs, hostOf, x) <==> Learns(xs[0].response, hostOf, x) || LearnedFrom(xs[1..], hostOf, x)
  {
    forall x
      ensures LearnedFrom(xs, hostOf, x) ==> Learns(xs[0].response, hostOf, x) || LearnedFrom(xs[1..], hostOf, x)
    {
      if LearnedFrom(xs, hostOf, x) {
        var j :| 0 <= j < |xs| && Learns(xs[j].response, hostOf, x);
        if j > 0 {
          assert xs[1..][j - 1] == xs[j];
        }
      }
    }
    forall x
      ensures LearnedFrom(xs[1..], hostOf, x) ==> LearnedFrom(xs, hostOf, x)
    {
      if LearnedFrom(xs[1..], hostOf, x) {
        var j :| 0 <= j < |xs[1..]| && Learns(xs[1..][j].response, hostOf, x);
        assert xs[1..][j] == xs[j + 1];
      }
    }
  }

  /** Exchange `k` is rewritten with the registry the first `k` exchanges left. */
  lemma RunStepAt(xs: seq<Exchange>, secureHosts: Registry, hostOf: string -> string, k: nat)
    requires k < |xs|
    ensures Run(xs, secureHosts, hostOf).0[k] == Step(xs[k], Run(xs[..k], secureHosts, hostOf).1, hostOf).0
  {
    FoldAt(xs, secureHosts, (x, r) => Step(x, r, hostOf), k);
  }

  /** A request goes out over HTTPS exactly when its host was in the
      registry at the start or was learned from an earlier response;
      otherwise its scheme, address and port are left alone. */
  lemma RunUpgradesLearnedHosts(xs: seq<Exchange>, secureHosts: Registry, hostOf: string -> string, k: nat)
    requires k < |xs|
    ensures var host := xs[k].request.prettyHost;
      var r := Run(xs, secureHosts, hostOf).0[k].request;
      (host in secureHosts || LearnedFrom(xs[..k], hostOf, host)) ==> r.scheme == "https" && r.port == 443 && r.host == host
    ensures var host := xs[k].request.prettyHost;
      var r := Run(xs, secureHosts, hostOf).0[k].request;
      !(host in secureHosts || LearnedFrom(xs[..k], hostOf, host)) ==>
        r.scheme == xs[k].request.scheme && r.port == xs[k].request.port && r.host == xs[k].request.host
  {
    RunStepAt(xs, secureHosts, hostOf, k);
    var known := Run(xs[..k], secureHosts, hostOf).1;
    RunRegistry(xs[..k], secureHosts, hostOf);
    StepRewritesRequest(xs[k], known, hostOf);
  }

  lemma StepRewritesRequest(x: Exchange, secureHosts: Registry, hostOf: string -> string)
    ensures Step(x, secureHosts, hostOf).0.request == RewriteRequest(x.request, secureHosts)
  {
  }

  /** An HTTPS redirect to a host makes the next request for that host go
      out over HTTPS, and the redirect itself reaches the browser as HTTP. */
  lemma RedirectThenUpgrade(first: Exchange, next: Exchange, hostOf: string -> string)
    requires StartsWith(LocationOf(first.response.headers), Https)
    requires hostOf(LocationOf(first.response.headers)) == next.request.prettyHost != ""
    ensures var out := Run([first, next], {}, hostOf).0;
      && out[1].request.scheme == "https" && out[1].request.port == 443
      && out[1].request.host == next.request.prettyHost
      && GetAll(out[0].response.headers, Location) == [Http + LocationOf(first.response.headers)[|Https|..]]
  {
    var xs := [first, next];
    RunUpgradesLearnedHosts(xs, {}, hostOf, 1);
    assert xs[..1][0] == first;
    assert LearnedFrom(xs[..1], hostOf, next.request.prettyHost);
    RunStepAt(xs, {}, hostOf, 0);
    assert xs[..0] == [];
    RewriteResponseSpec(first.response, {}, hostOf);
  }

  /** With an empty registry the first request is never upgraded. */
  lemma FirstRequestUntouched(xs: seq<Exchange>, hostOf: string -> string)
    requires xs != []
    ensures Run(xs, {}, hostOf).0[0].request.scheme == xs[0].request.scheme
    ensures Run(xs, {}, hostOf).0[0].request.port == xs[0].request.port
  {
    RunStepAt(xs, {}, hostOf, 0);
    assert xs[..0] == [];
  }
}
