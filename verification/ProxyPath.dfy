/** Where a proxied request goes: the path on the upstream, from the target's path, the request's path and
    the route's prefix. For a rooted request path the branching form equals a direct one that puts the
    resolved remainder under the target. */
module ProxyPath {

  // ----- text -----

  predicate HasSuffix(s: string, suffix: string) {
    |suffix| <= |s| && s[|s| - |suffix|..] == suffix
  }

  function TrimPrefix(s: string, prefix: string): string {
    if prefix <= s then s[|prefix|..] else s
  }

  predicate Rooted(p: string) {
    "/" <= p
  }

  // ----- elements -----

  /** Position of the first slash, or |p|. */
  function SlashAt(p: string): (i: nat)
    ensures i <= |p| && (i < |p| ==> p[i] == '/')
    ensures forall j :: 0 <= j < i ==> p[j] != '/'
  {
    if p == "" || p[0] == '/' then 0 else 1 + SlashAt(p[1..])
  }

  predicate IsElement(e: string) {
    e != "" && SlashAt(e) == |e|
  }

  ghost predicate AreElements(es: seq<string>) {
    forall i :: 0 <= i < |es| ==> IsElement(es[i])
  }

  function Alone(e: string): seq<string> {
    if e == "" then [] else [e]
  }

  /** The names between the slashes; repeated slashes count as one. */
  function Elements(p: string): seq<string> {
    var i := SlashAt(p);
    if i == |p| then Alone(p) else Alone(p[..i]) + Elements(p[i + 1..])
  }

  function Join(es: seq<string>): string {
    if es == [] then "" else if |es| == 1 then es[0] else es[0] + "/" + Join(es[1..])
  }

  lemma SlashAtIs(p: string, i: nat)
    requires i <= |p| && (i < |p| ==> p[i] == '/')
    requires forall j :: 0 <= j < i ==> p[j] != '/'
    ensures SlashAt(p) == i
  {
  }

  lemma ElementsCut(p: string)
    ensures var i := SlashAt(p);
            Elements(p) == if i == |p| then Alone(p) else Alone(p[..i]) + Elements(p[i + 1..])
  {
    hide SlashAt, Alone;
  }

  lemma {:induction false} ElementsAreElements(p: string)
    ensures AreElements(Elements(p))
    decreases |p|
  {
    hide SlashAt;
    var i := SlashAt(p);
    SlashAtIs(p[..i], i);
    if i == |p| {
    } else {
      ElementsAreElements(p[i + 1..]);
    }
  }

  lemma {:induction false} ElementsOfSum(a: string, b: string)
    ensures Elements(a + "/" + b) == Elements(a) + Elements(b)
    decreases |a|
  {
    hide Elements, SlashAt, Alone;
    var i := SlashAt(a);
    var p := a + "/" + b;
    ElementsCut(a);
    ElementsCut(p);
    SlashAtIs(p, i);
    assert p[..i] == a[..i];
    if i < |a| {
      ElementsOfSum(a[i + 1..], b);
      assert p[i + 1..] == a[i + 1..] + "/" + b;
    } else {
      assert p[..i] == a && p[i + 1..] == b;
    }
  }

  lemma SlashesDoNotCount(p: string)
    ensures Elements("/" + p) == Elements(p) == Elements(p + "/")
  {
    ElementsOfSum("", p);
    ElementsOfSum(p, "");
    assert "" + "/" + p == "/" + p && p + "/" + "" == p + "/";
  }

  lemma ElementAlone(e: string)
    requires IsElement(e)
    ensures Elements(e) == [e]
  {
    assert e[..|e|] == e;
    SlashAtIs(e, |e|);
  }

  lemma {:induction false} ElementsOfJoin(es: seq<string>)
    requires AreElements(es)
    ensures Elements(Join(es)) == es
  {
    if es == [] {
    } else if |es| == 1 {
      ElementAlone(es[0]);
    } else {
      ElementAlone(es[0]);
      ElementsOfJoin(es[1..]);
      ElementsOfSum(es[0], Join(es[1..]));
    }
  }

  lemma {:induction false} JoinOfSum(a: seq<string>, b: seq<string>)
    requires a != [] && b != []
    ensures Join(a + b) == Join(a) + "/" + Join(b)
  {
    if |a| == 1 {
      assert (a + b)[1..] == b;
    } else {
      JoinOfSum(a[1..], b);
      assert (a + b)[1..] == a[1..] + b;
    }
  }

  lemma {:induction false} JoinEndsInName(es: seq<string>)
    requires AreElements(es) && es != []
    ensures Join(es) != "" && Join(es)[0] != '/' && !HasSuffix(Join(es), "/")
  {
    assert IsElement(es[0]);
    if |es| > 1 {
      JoinEndsInName(es[1..]);
      var rest := Join(es[1..]);
      assert Join(es)[|Join(es)| - 1] == rest[|rest| - 1];
      assert rest[|rest| - 1..] == [rest[|rest| - 1]];
      assert Join(es)[|Join(es)| - 1..] == [rest[|rest| - 1]];
    } else {
      assert es[0][|es[0]| - 1..] == [es[0][|es[0]| - 1]];
    }
  }

  // ----- path.Clean of Go -----

  function Step(rooted: bool, above: seq<string>, e: string): seq<string> {
    if e == "." then above
    else if e != ".." then above + [e]
    else if above != [] && above[|above| - 1] != ".." then above[..|above| - 1]
    else if rooted then above
    else above + [".."]
  }

  /** The elements with "." dropped and ".." taken back, at the root if there is nothing to take back. */
  function Resolve(rooted: bool, es: seq<string>): seq<string> {
    if es == [] then [] else Step(rooted, Resolve(rooted, es[..|es| - 1]), es[|es| - 1])
  }

  function Clean(p: string): string {
    var es := Resolve(Rooted(p), Elements(p));
    if Rooted(p) then "/" + Join(es) else if es == [] then "." else Join(es)
  }

  ghost predicate DotFree(es: seq<string>) {
    "." !in es && ".." !in es
  }

  lemma {:induction false} ResolveIsDotFree(es: seq<string>)
    requires AreElements(es)
    ensures DotFree(Resolve(true, es)) && AreElements(Resolve(true, es))
  {
    if es == [] {
    } else {
      ResolveIsDotFree(es[..|es| - 1]);
    }
  }

  lemma {:induction false} ResolveKeepsDotFree(es: seq<string>)
    requires DotFree(es)
    ensures Resolve(true, es) == es
  {
    if es == [] {
    } else {
      var last := es[|es| - 1];
      assert last in es;
      assert es == es[..|es| - 1] + [last];
      ResolveKeepsDotFree(es[..|es| - 1]);
    }
  }

  /** What Clean makes of a rooted path: the resolved elements, from which the path can be read back. */
  lemma CleanRooted(p: string)
    requires Rooted(p)
    ensures var es := Resolve(true, Elements(p));
            && Clean(p) == "/" + Join(es) && Elements(Clean(p)) == es
            && DotFree(es) && AreElements(es)
            && (HasSuffix(Clean(p), "/") <==> es == [])
  {
    hide Elements, Resolve, Join, AreElements, DotFree;
    var es := Resolve(true, Elements(p));
    ElementsAreElements(p);
    ResolveIsDotFree(Elements(p));
    ElementsOfJoin(es);
    SlashesDoNotCount(Join(es));
    RenderedEnd(es);
  }

  lemma RenderedEnd(es: seq<string>)
    requires AreElements(es)
    ensures HasSuffix("/" + Join(es), "/") <==> es == []
    ensures Join(es) == "" <==> es == []
  {
    if es != [] {
      JoinEndsInName(es);
      var j := Join(es);
      assert ("/" + j)[|j|..] == j[|j| - 1..];
    }
  }

  // ----- the join -----

  function SingleJoiningSlash(a: string, b: string): string {
    var aslash := HasSuffix(a, "/");
    var bslash := "/" <= b;
    if aslash && bslash then a + b[1..]
    else if !aslash && !bslash then a + "/" + b
    else a + b
  }

  /** A cleaned path put under the cleaned target, with the textual guard against leaving it. */
  function Under(target: string, cleanPath: string): string {
    var cleanTarget := Clean(target);
    var joined := Clean(SingleJoiningSlash(cleanTarget, cleanPath));
    if cleanTarget <= joined then joined else SingleJoiningSlash(cleanTarget, TrimPrefix(joined, "/"))
  }

  function WithSlash(p: string, wanted: bool): string {
    if wanted && !HasSuffix(p, "/") then p + "/" else p
  }

  predicate HasSubpath(target: string) {
    target != "" && target != "/"
  }

  predicate Strips(prefix: string, stripPrefix: bool) {
    stripPrefix && prefix != ""
  }

  function JoinProxyPath(target: string, req: string, prefix: string, stripPrefix: bool): string {
    if !Strips(prefix, stripPrefix) then
      var cleaned := Clean(req);
      var cleanReq := if "/" <= cleaned then cleaned else "/" + cleaned;
      if !HasSubpath(target) then
        if cleanReq != "/" then WithSlash(cleanReq, HasSuffix(req, "/")) else cleanReq
      else
        WithSlash(Under(target, cleanReq), HasSuffix(req, "/") || HasSuffix(target, "/"))
    else
      var trimmed := TrimPrefix(req, prefix);
      if HasSubpath(target) then
        if trimmed == "" then target
        else if trimmed == "/" then WithSlash(target, true)
        else
          var cleanTrimmed := Clean("/" + TrimPrefix(trimmed, "/"));
          if cleanTrimmed == "/" then WithSlash(target, HasSuffix(req, "/") || HasSuffix(target, "/"))
          else WithSlash(Under(target, cleanTrimmed), HasSuffix(req, "/"))
      else if trimmed == "" || trimmed == "/" then "/"
      else
        var cleanTrimmed := Clean("/" + TrimPrefix(trimmed, "/"));
        if cleanTrimmed == "/" then "/" else WithSlash(cleanTrimmed, HasSuffix(req, "/"))
  }

  // ----- what it amounts to -----

  /** What is left of the request path, resolved without leaving the root. */
  function Remainder(req: string, prefix: string, stripPrefix: bool): seq<string> {
    Resolve(true, Elements(if Strips(prefix, stripPrefix) then TrimPrefix(req, prefix) else req))
  }

  function Rendered(es: seq<string>, slash: bool): string {
    "/" + Join(es) + if slash && es != [] then "/" else ""
  }

  /** The configured target path is used as it is written, unresolved. */
  predicate UsesTargetAsIs(target: string, req: string, prefix: string, stripPrefix: bool) {
    Strips(prefix, stripPrefix) && HasSubpath(target) && Remainder(req, prefix, stripPrefix) == []
  }

  /** The same path without branches, guards or fallbacks. */
  function Destination(target: string, req: string, prefix: string, stripPrefix: bool): string {
    var rest := Remainder(req, prefix, stripPrefix);
    var slash := HasSuffix(req, "/");
    if UsesTargetAsIs(target, req, prefix, stripPrefix) then
      WithSlash(target, slash && TrimPrefix(req, prefix) != "")
    else
      Rendered(Resolve(true, Elements(target)) + rest,
               slash || (!Strips(prefix, stripPrefix) && HasSubpath(target) && HasSuffix(target, "/")))
  }

  lemma RemainderOfTrimmed(p: string)
    ensures Elements("/" + TrimPrefix(p, "/")) == Elements(p)
  {
    var rest := TrimPrefix(p, "/");
    SlashesDoNotCount(rest);
    if "/" <= p {
      assert p == "/" + rest;
    }
  }

  /** The guard is never needed: under a rooted target, a rooted clean path stays there. */
  lemma GuardNeverFires(target: string, path: string)
    requires Rooted(target) && Rooted(path)
    ensures var joined := Clean(SingleJoiningSlash(Clean(target), Clean(path)));
            && Clean(target) <= joined == Under(target, Clean(path))
            && joined == "/" + Join(Resolve(true, Elements(target)) + Resolve(true, Elements(path)))
  {
    hide Elements, Resolve, Join, AreElements, DotFree, Clean;
    var t, p := Resolve(true, Elements(target)), Resolve(true, Elements(path));
    CleanRooted(target);
    CleanRooted(path);
    SumOfClean(t, p, Clean(target), Clean(path));
    CleanOfSum(t, p, SingleJoiningSlash(Clean(target), Clean(path)));
    JoinGrows(t, p);
  }

  lemma SumOfClean(t: seq<string>, p: seq<string>, a: string, b: string)
    requires AreElements(t) && AreElements(p)
    requires a == "/" + Join(t) && b == "/" + Join(p)
    ensures Rooted(SingleJoiningSlash(a, b)) && Elements(SingleJoiningSlash(a, b)) == t + p
  {
    hide Elements, Join, AreElements;
    var s := SingleJoiningSlash(a, b);
    ElementsOfJoin(t);
    ElementsOfJoin(p);
    RenderedEnd(t);
    SlashesDoNotCount(Join(p));
    if t == [] {
      assert s == b && t + p == p;
    } else {
      SlashesDoNotCount(Join(t));
      assert s == a + "/" + Join(p);
      ElementsOfSum(a, Join(p));
    }
  }

  lemma CleanOfSum(t: seq<string>, p: seq<string>, s: string)
    requires Rooted(s) && Elements(s) == t + p && DotFree(t) && DotFree(p)
    ensures Clean(s) == "/" + Join(t + p)
  {
    hide Elements, Join, AreElements;
    assert DotFree(t + p);
    ResolveKeepsDotFree(t + p);
  }

  lemma JoinGrows(t: seq<string>, p: seq<string>)
    ensures Join(t) <= Join(t + p)
  {
    if t == [] {
      assert Join(t) == "";
    } else if p == [] {
      assert t + p == t;
    } else {
      JoinOfSum(t, p);
    }
  }

  lemma WithSlashIsRendered(es: seq<string>, wanted: bool)
    requires AreElements(es)
    ensures WithSlash("/" + Join(es), wanted) == Rendered(es, wanted)
  {
    hide AreElements, Join;
    RenderedEnd(es);
  }

  lemma UnstrippedIsDestination(target: string, req: string, prefix: string, stripPrefix: bool)
    requires (Rooted(target) || target == "") && Rooted(req) && !Strips(prefix, stripPrefix)
    ensures JoinProxyPath(target, req, prefix, stripPrefix) == Destination(target, req, prefix, stripPrefix)
  {
    hide AreElements, Join, HasSuffix, Clean, DotFree, Elements, Under, Resolve;
    var t, p := Resolve(true, Elements(target)), Resolve(true, Elements(req));
    CleanRooted(req);
    WithSlashIsRendered(p, HasSuffix(req, "/"));
    if HasSubpath(target) {
      CleanRooted(target);
      GuardNeverFires(target, req);
      AreElementsOfSum(t, p);
      WithSlashIsRendered(t + p, HasSuffix(req, "/") || HasSuffix(target, "/"));
    } else {
      NoElements(target);
      assert t + p == p;
      RenderedEnd(p);
    }
  }

  lemma AreElementsOfSum(t: seq<string>, p: seq<string>)
    requires AreElements(t) && AreElements(p)
    ensures AreElements(t + p)
  {
  }

  lemma NoElements(target: string)
    requires !HasSubpath(target)
    ensures Resolve(true, Elements(target)) == []
  {
    if target == "/" {
      assert target == "/" + "";
      SlashesDoNotCount("");
    }
  }

  lemma SlashOfTrimmed(req: string, prefix: string)
    requires TrimPrefix(req, prefix) == "/"
    ensures HasSuffix(req, "/")
  {
  }

  lemma StrippedIsDestination(target: string, req: string, prefix: string, stripPrefix: bool, path: string)
    requires (Rooted(target) || target == "") && Strips(prefix, stripPrefix)
    requires path == "/" + TrimPrefix(TrimPrefix(req, prefix), "/")
    requires Elements(path) == Elements(TrimPrefix(req, prefix))
    ensures JoinProxyPath(target, req, prefix, stripPrefix) == Destination(target, req, prefix, stripPrefix)
  {
    hide AreElements, Join, HasSuffix, Clean, DotFree, Elements, Under, Resolve;
    var t, p := Resolve(true, Elements(target)), Resolve(true, Elements(path));
    var trimmed := TrimPrefix(req, prefix);
    CleanRooted(path);
    RenderedEnd(p);
    if !HasSubpath(trimmed) {
      NoElements(trimmed);
      if trimmed == "/" {
        SlashOfTrimmed(req, prefix);
      }
    }
    if HasSubpath(target) {
      CleanRooted(target);
      GuardNeverFires(target, path);
      AreElementsOfSum(t, p);
      WithSlashIsRendered(t + p, HasSuffix(req, "/"));
    } else {
      NoElements(target);
      assert t + p == p;
      WithSlashIsRendered(p, HasSuffix(req, "/"));
    }
  }

  /** For every rooted request path, and for every request path whose prefix is stripped, under every
      rooted or empty target: the branching form is the direct one. */
  lemma JoinIsDestination(target: string, req: string, prefix: string, stripPrefix: bool)
    requires Rooted(target) || target == ""
    requires Rooted(req) || Strips(prefix, stripPrefix)
    ensures JoinProxyPath(target, req, prefix, stripPrefix) == Destination(target, req, prefix, stripPrefix)
  {
    hide *;
    if Strips(prefix, stripPrefix) {
      var trimmed := TrimPrefix(req, prefix);
      RemainderOfTrimmed(trimmed);
      StrippedIsDestination(target, req, prefix, stripPrefix, "/" + TrimPrefix(trimmed, "/"));
    } else {
      UnstrippedIsDestination(target, req, prefix, stripPrefix);
    }
  }

  // ----- where the request ends up -----

  lemma WithSlashElements(p: string, wanted: bool)
    ensures Elements(WithSlash(p, wanted)) == Elements(p)
    ensures Rooted(p) ==> Rooted(WithSlash(p, wanted))
  {
    hide Elements;
    SlashesDoNotCount(p);
  }

  /** The names on the upstream: the target's, then the resolved remainder. */
  lemma ElementsOfDestination(target: string, req: string, prefix: string, stripPrefix: bool)
    requires Rooted(target) || target == ""
    requires Rooted(req) || Strips(prefix, stripPrefix)
    ensures var out := JoinProxyPath(target, req, prefix, stripPrefix);
            var asIs := UsesTargetAsIs(target, req, prefix, stripPrefix);
            var rest := Remainder(req, prefix, stripPrefix);
            && Rooted(out) && DotFree(rest)
            && Elements(out) == (if asIs then Elements(target) else Resolve(true, Elements(target))) + rest
  {
    hide Elements, Resolve, Join, AreElements, HasSuffix, DotFree, JoinProxyPath;
    JoinIsDestination(target, req, prefix, stripPrefix);
    var t := Resolve(true, Elements(target));
    var rest := Remainder(req, prefix, stripPrefix);
    var left := if Strips(prefix, stripPrefix) then TrimPrefix(req, prefix) else req;
    ElementsAreElements(left);
    ResolveIsDotFree(Elements(left));
    if UsesTargetAsIs(target, req, prefix, stripPrefix) {
      assert Rooted(target);
      WithSlashElements(target, HasSuffix(req, "/") && TrimPrefix(req, prefix) != "");
      assert Elements(target) + rest == Elements(target);
    } else {
      ElementsAreElements(target);
      ResolveIsDotFree(Elements(target));
      AreElementsOfSum(t, rest);
      var slash := HasSuffix(req, "/") || (!Strips(prefix, stripPrefix) && HasSubpath(target) && HasSuffix(target, "/"));
      ElementsOfRendered(t + rest, slash);
    }
  }

  lemma ElementsOfRendered(es: seq<string>, slash: bool)
    requires AreElements(es)
    ensures Rooted(Rendered(es, slash)) && Elements(Rendered(es, slash)) == es
  {
    hide Elements, Join, AreElements;
    ElementsOfJoin(es);
    SlashesDoNotCount(Join(es));
    SlashesDoNotCount("/" + Join(es));
    assert "/" + Join(es) + "" == "/" + Join(es);
  }

  /** Clean, rooted, and perhaps with one slash at the end; or no path at all. */
  predicate AlmostClean(target: string) {
    || target == ""
    || (Rooted(target) && Clean(target) == target)
    || (HasSuffix(target, "/") && Rooted(target[..|target| - 1]) && Clean(target[..|target| - 1]) == target[..|target| - 1])
  }

  lemma AlmostCleanIsResolved(target: string)
    requires AlmostClean(target)
    ensures Resolve(true, Elements(target)) == Elements(target) && (target == "" || Rooted(target))
  {
    hide Resolve, Elements, Clean, Join;
    if target == "" {
      NoElements(target);
      ElementsOfJoin([]);
      assert Join([]) == "" by { NoElementsJoined(); }
    } else if Rooted(target) && Clean(target) == target {
      CleanRooted(target);
    } else {
      var p := target[..|target| - 1];
      assert target == p + "/";
      CleanRooted(p);
      SlashesDoNotCount(p);
    }
  }

  lemma NoElementsJoined()
    ensures Join([]) == ""
  {
  }

  /** Containment: the request lands on the target's names followed by the resolved remainder, and no dot
      name is left anywhere. */
  lemma StaysUnderTarget(target: string, req: string, prefix: string, stripPrefix: bool)
    requires AlmostClean(target)
    requires Rooted(req) || Strips(prefix, stripPrefix)
    ensures var out := JoinProxyPath(target, req, prefix, stripPrefix);
            && Rooted(out) && DotFree(Elements(out))
            && Elements(out) == Elements(target) + Remainder(req, prefix, stripPrefix)
  {
    hide Resolve, Elements, Clean, Join, JoinProxyPath, UsesTargetAsIs, AlmostClean, AreElements;
    AlmostCleanIsResolved(target);
    ElementsOfDestination(target, req, prefix, stripPrefix);
    ElementsAreElements(target);
    ResolveIsDotFree(Elements(target));
  }

  /** For targets that are not clean: dot names survive exactly when the target is used as it is written. */
  lemma DotFreeIff(target: string, req: string, prefix: string, stripPrefix: bool)
    requires Rooted(target) || target == ""
    requires Rooted(req) || Strips(prefix, stripPrefix)
    ensures DotFree(Elements(JoinProxyPath(target, req, prefix, stripPrefix)))
            <==> (UsesTargetAsIs(target, req, prefix, stripPrefix) ==> DotFree(Elements(target)))
  {
    hide Resolve, Elements, Clean, Join, JoinProxyPath, AreElements, Strips, HasSubpath;
    ElementsOfDestination(target, req, prefix, stripPrefix);
    ElementsAreElements(target);
    ResolveIsDotFree(Elements(target));
  }

  // ----- request paths that are not rooted, no prefix stripped -----

  function Ups(k: nat): seq<string> {
    if k == 0 then [] else Ups(k - 1) + [".."]
  }

  /** How many names above its start the path climbs. */
  function Climb(es: seq<string>): nat {
    if es == [] then 0
    else
      var earlier := es[..|es| - 1];
      Climb(earlier) + if es[|es| - 1] == ".." && Resolve(true, earlier) == [] then 1 else 0
  }

  lemma {:induction false} UpsAreUps(k: nat)
    ensures |Ups(k)| == k && forall i :: 0 <= i < k ==> Ups(k)[i] == ".."
  {
    if k == 0 {
    } else {
      UpsAreUps(k - 1);
    }
  }

  /** An unrooted path resolves to its climb followed by what the rooted one resolves to. */
  lemma {:induction false} UnrootedIsClimb(es: seq<string>)
    requires AreElements(es)
    ensures Resolve(false, es) == Ups(Climb(es)) + Resolve(true, es)
  {
    if es == [] {
    } else {
      var earlier := es[..|es| - 1];
      UnrootedIsClimb(earlier);
      UpsAreUps(Climb(earlier));
      ResolveIsDotFree(earlier);
      ClimbStep(Climb(earlier), Resolve(true, earlier), es[|es| - 1]);
    }
  }

  lemma ClimbStep(k: nat, above: seq<string>, e: string)
    requires DotFree(above)
    ensures Step(false, Ups(k) + above, e)
            == (if e == ".." && above == [] then Ups(k + 1) else Ups(k) + Step(true, above, e))
  {
    UpsAreUps(k);
    var s := Ups(k) + above;
    if above == [] {
      assert s == Ups(k);
    } else {
      assert s[|s| - 1] == above[|above| - 1];
      assert above[|above| - 1] in above;
      assert s[..|s| - 1] == Ups(k) + above[..|above| - 1];
    }
    assert s + [e] == Ups(k) + (above + [e]);
  }

  lemma ResolvePush(rooted: bool, es: seq<string>, e: string)
    ensures Resolve(rooted, es + [e]) == Step(rooted, Resolve(rooted, es), e)
  {
    assert (es + [e])[..|es|] == es;
  }

  function Shortened(t: seq<string>, k: nat): seq<string> {
    if k <= |t| then t[..|t| - k] else []
  }

  lemma {:induction false} ResolveUps(t: seq<string>, k: nat)
    requires DotFree(t)
    ensures Resolve(true, t + Ups(k)) == Shortened(t, k)
  {
    hide Resolve;
    if k == 0 {
      assert t + Ups(0) == t;
      ResolveKeepsDotFree(t);
    } else {
      ResolveUps(t, k - 1);
      assert t + Ups(k) == (t + Ups(k - 1)) + [".."];
      ResolvePush(true, t + Ups(k - 1), "..");
      if k <= |t| {
        assert Shortened(t, k - 1)[|t| - k] in t;
      }
    }
  }

  lemma {:induction false} ResolveThenNames(a: seq<string>, names: seq<string>)
    requires DotFree(names)
    ensures Resolve(true, a + names) == Resolve(true, a) + names
  {
    if names == [] {
      assert a + names == a;
    } else {
      var earlier, last := names[..|names| - 1], names[|names| - 1];
      assert last in names;
      assert names == earlier + [last];
      ResolveThenNames(a, earlier);
      assert (a + names)[..|a + names| - 1] == a + earlier;
    }
  }

  /** The names after an unrooted path climbs from the target. */
  function AfterClimb(target: string, req: string): seq<string> {
    Shortened(Resolve(true, Elements(target)), Climb(Elements(req))) + Remainder(req, "", false)
  }

  /** The guard compares text, not names. */
  predicate GuardPasses(target: string, req: string) {
    Join(Resolve(true, Elements(target))) <= Join(AfterClimb(target, req))
  }

  lemma ClimbFromTarget(t: seq<string>, es: seq<string>)
    requires DotFree(t) && AreElements(es)
    ensures Resolve(true, t + Resolve(false, es)) == Shortened(t, Climb(es)) + Resolve(true, es)
    ensures AreElements(Resolve(false, es))
  {
    hide Resolve, Climb;
    UnrootedIsClimb(es);
    ResolveIsDotFree(es);
    var k, rest := Climb(es), Resolve(true, es);
    ResolveUps(t, k);
    ResolveThenNames(t + Ups(k), rest);
    assert t + (Ups(k) + rest) == (t + Ups(k)) + rest;
    UpsAreUps(k);
  }

  lemma CleanUnrooted(req: string, t: seq<string>)
    requires !Rooted(req) && DotFree(t)
    ensures Clean(req) != "" && !Rooted(Clean(req))
    ensures Resolve(true, t + Elements(Clean(req))) == Resolve(true, t + Resolve(false, Elements(req)))
    ensures AreElements(Resolve(false, Elements(req)))
  {
    hide Resolve, Elements, Join, AreElements, Climb;
    ElementsAreElements(req);
    ClimbFromTarget(t, Elements(req));
    var c := Resolve(false, Elements(req));
    if c == [] {
      ElementAlone(".");
      ResolvePush(true, t, ".");
      assert t + c == t && t + ["."] == t + Elements(".");
      ResolveKeepsDotFree(t);
      assert Clean(req)[0] == '.';
    } else {
      JoinEndsInName(c);
      assert Clean(req)[0] != '/';
      ElementsOfJoin(c);
    }
  }

  /** Where an unrooted request path ends up under a target: on the names after the climb if they pass the
      guard, and on the target followed by them if they do not. */
  lemma UnrootedElements(target: string, req: string, prefix: string, stripPrefix: bool)
    requires Rooted(target) && HasSubpath(target) && !Rooted(req) && !Strips(prefix, stripPrefix)
    ensures Elements(JoinProxyPath(target, req, prefix, stripPrefix))
            == (if GuardPasses(target, req) then [] else Resolve(true, Elements(target))) + AfterClimb(target, req)
  {
    hide Resolve, Elements, Join, AreElements, DotFree, Clean, HasSuffix, Climb, Shortened;
    var t, after := Resolve(true, Elements(target)), AfterClimb(target, req);
    CleanRooted(target);
    ElementsAreElements(req);
    ClimbFromTarget(t, Elements(req));
    CleanUnrooted(req, t);
    var cleanReq := "/" + Clean(req);
    SlashedUnder(target, Clean(req), after);
    WithSlashElements(Under(target, cleanReq), HasSuffix(req, "/") || HasSuffix(target, "/"));
  }

  /** Both ways the guard can go, for a cleaned path that is not rooted. */
  lemma SlashedUnder(target: string, cleaned: string, after: seq<string>)
    requires Rooted(target) && cleaned != "" && !Rooted(cleaned)
    requires Resolve(true, Resolve(true, Elements(target)) + Elements(cleaned)) == after
    ensures var t := Resolve(true, Elements(target));
            Elements(Under(target, "/" + cleaned)) == (if Join(t) <= Join(after) then [] else t) + after
  {
    hide Resolve, Elements, Join, AreElements, DotFree, Clean, HasSuffix;
    var t := Resolve(true, Elements(target));
    CleanRooted(target);
    NoElementsJoined();
    var a := Clean(target);
    var s := SingleJoiningSlash(a, "/" + cleaned);
    assert s == if t == [] then a + cleaned else a + "/" + cleaned by {
      assert ("/" + cleaned)[1..] == cleaned;
    }
    ElementsOfSlashed(a, cleaned, t);
    CleanRooted(s);
    RenderedEnd(after);
    if !(Join(t) <= Join(after)) {
      TrimRendered(after);
      assert SingleJoiningSlash(a, Join(after)) == a + "/" + Join(after);
      ElementsOfSum(a, Join(after));
      ElementsOfJoin(after);
    }
  }

  lemma ElementsOfSlashed(a: string, cleaned: string, t: seq<string>)
    requires Elements(a) == t && (t == [] ==> a == "/")
    ensures Elements(if t == [] then a + cleaned else a + "/" + cleaned) == t + Elements(cleaned)
  {
    hide Elements;
    ElementsOfSum(a, cleaned);
    SlashesDoNotCount(cleaned);
  }

  lemma TrimRendered(es: seq<string>)
    requires AreElements(es)
    ensures TrimPrefix("/" + Join(es), "/") == Join(es) && !("/" <= Join(es))
  {
    if es == [] {
    } else {
      JoinEndsInName(es);
    }
  }

  /** Exactly when an unrooted request path stays under the target's names: the guard refuses the names
      after the climb, or they begin with the target's anyway. */
  lemma UnrootedContainedIff(target: string, req: string, prefix: string, stripPrefix: bool)
    requires Rooted(target) && HasSubpath(target) && !Rooted(req) && !Strips(prefix, stripPrefix)
    ensures var t := Resolve(true, Elements(target));
            t <= Elements(JoinProxyPath(target, req, prefix, stripPrefix))
            <==> (!GuardPasses(target, req) || t <= AfterClimb(target, req))
  {
    hide Resolve, Elements, JoinProxyPath, GuardPasses, AfterClimb;
    UnrootedElements(target, req, prefix, stripPrefix);
    assert [] + AfterClimb(target, req) == AfterClimb(target, req);
  }

  /** Exactly when an unrooted request path is treated like a rooted one: it does not climb, or the target
      has no names, or it climbs to the root and lands on text the target does not begin. */
  lemma UnrootedStaysIff(target: string, req: string, prefix: string, stripPrefix: bool)
    requires Rooted(target) && HasSubpath(target) && !Rooted(req) && !Strips(prefix, stripPrefix)
    ensures var t := Resolve(true, Elements(target));
            var rest := Remainder(req, "", false);
            var climb := Climb(Elements(req));
            Elements(JoinProxyPath(target, req, prefix, stripPrefix)) == t + rest
            <==> (climb == 0 || t == [] || (climb >= |t| && !(Join(t) <= Join(rest))))
  {
    hide Resolve, Elements, Join, Climb, JoinProxyPath;
    UnrootedElements(target, req, prefix, stripPrefix);
    var t, rest := Resolve(true, Elements(target)), Remainder(req, "", false);
    var climb := Climb(Elements(req));
    JoinGrows(t, rest);
    if climb == 0 || t == [] {
      assert AfterClimb(target, req) == t + rest;
    } else if climb >= |t| {
      assert AfterClimb(target, req) == rest;
      assert |rest| != |t + rest|;
    } else {
      assert |AfterClimb(target, req)| < |t + rest|;
      assert |t + AfterClimb(target, req)| > |t + rest|;
    }
  }

  /** With no target path, an unrooted request path keeps its climb, and an empty one becomes a dot. */
  lemma UnrootedAlone(target: string, req: string, prefix: string, stripPrefix: bool)
    requires !HasSubpath(target) && !Rooted(req) && !Strips(prefix, stripPrefix)
    ensures var rest := Remainder(req, "", false);
            var climb := Climb(Elements(req));
            Elements(JoinProxyPath(target, req, prefix, stripPrefix))
            == (if climb == 0 && rest == [] then ["."] else Ups(climb) + rest)
  {
    hide Resolve, Elements, Join, AreElements, Climb, HasSuffix;
    var c := Resolve(false, Elements(req));
    ElementsAreElements(req);
    UnrootedIsClimb(Elements(req));
    UpsAreUps(Climb(Elements(req)));
    CleanUnrooted(req, []);
    var cleaned := Clean(req);
    if c == [] {
      ElementAlone(".");
    } else {
      ElementsOfJoin(c);
    }
    SlashesDoNotCount(cleaned);
    WithSlashElements("/" + cleaned, HasSuffix(req, "/"));
  }

  // ----- resolving by rules -----

  lemma {:induction false} ResolveOnwards(rooted: bool, x: seq<string>, y: seq<string>, b: seq<string>)
    requires Resolve(rooted, x) == Resolve(rooted, y)
    ensures Resolve(rooted, x + b) == Resolve(rooted, y + b)
  {
    if b == [] {
      assert x + b == x && y + b == y;
    } else {
      var n := |b| - 1;
      ResolveOnwards(rooted, x, y, b[..n]);
      assert x + b == (x + b[..n]) + [b[n]] && y + b == (y + b[..n]) + [b[n]];
      ResolvePush(rooted, x + b[..n], b[n]);
      ResolvePush(rooted, y + b[..n], b[n]);
    }
  }

  /** The rules of path.Clean, which together determine the result: a "." goes, a name goes with the ".." behind
      it, ".." at the root goes, and what has none of these is left as it is. */
  lemma ResolveByRules(rooted: bool, a: seq<string>, name: string, b: seq<string>)
    requires name != "." && name != ".."
    ensures Resolve(rooted, a + ["."] + b) == Resolve(rooted, a + b)
    ensures Resolve(rooted, a + [name, ".."] + b) == Resolve(rooted, a + b)
    ensures Resolve(true, [".."] + b) == Resolve(true, b)
    ensures DotFree(b) ==> Resolve(true, b) == b && forall k: nat :: Resolve(false, Ups(k) + b) == Ups(k) + b
  {
    hide Resolve, DotFree;
    ResolvePush(rooted, a, ".");
    ResolveOnwards(rooted, a + ["."], a, b);
    assert a + [name, ".."] == (a + [name]) + [".."];
    ResolvePush(rooted, a, name);
    ResolvePush(rooted, a + [name], "..");
    var r := Resolve(rooted, a);
    assert (r + [name])[..|r|] == r;
    ResolveOnwards(rooted, a + [name, ".."], a, b);
    ResolvePush(true, [], "..");
    ResolveNothing();
    assert [] + [".."] == [".."] && [] + b == b;
    ResolveOnwards(true, [".."], [], b);
    if DotFree(b) {
      ResolveKeepsDotFree(b);
      forall k: nat ensures Resolve(false, Ups(k) + b) == Ups(k) + b {
        UpsAreKept(k, b);
      }
    }
  }

  lemma {:induction false} UpsAreKept(k: nat, b: seq<string>)
    requires DotFree(b)
    ensures Resolve(false, Ups(k) + b) == Ups(k) + b
    decreases k + |b|
  {
    UpsAreUps(k);
    if b == [] {
      assert Ups(k) + b == Ups(k);
      if k > 0 {
        UpsAreKept(k - 1, []);
        assert Ups(k - 1) + [] == Ups(k - 1);
        ResolvePush(false, Ups(k - 1), "..");
        UpsAreUps(k - 1);
      }
    } else {
      var n := |b| - 1;
      assert b[n] in b;
      UpsAreKept(k, b[..n]);
      assert Ups(k) + b == (Ups(k) + b[..n]) + [b[n]];
      ResolvePush(false, Ups(k) + b[..n], b[n]);
    }
  }

  // ----- the prefix of the route -----

  /** A prefix that is to be stripped and that the request path has is stripped, whatever follows it; one it
      does not have, or that is not to be stripped, changes nothing. */
  lemma PrefixIsStripped(target: string, prefix: string, rest: string)
    requires AlmostClean(target) && prefix != ""
    ensures Elements(JoinProxyPath(target, prefix + rest, prefix, true)) == Elements(target) + Resolve(true, Elements(rest))
    ensures !(prefix <= rest) ==>
              Elements(JoinProxyPath(target, rest, prefix, true)) == Elements(target) + Resolve(true, Elements(rest))
    ensures Rooted(rest) ==>
              Elements(JoinProxyPath(target, rest, prefix, false)) == Elements(target) + Resolve(true, Elements(rest))
  {
    hide Elements, Resolve, JoinProxyPath, AlmostClean;
    assert (prefix + rest)[|prefix|..] == rest;
    StaysUnderTarget(target, prefix + rest, prefix, true);
    StaysUnderTarget(target, rest, prefix, true);
    if Rooted(rest) {
      StaysUnderTarget(target, rest, prefix, false);
    }
  }

  // ----- request paths as the router hands them on -----

  function CleanRequestPath(p: string): string {
    if p == "" then "/"
    else
      var cleaned := Clean(p);
      var clean := if "/" <= cleaned then cleaned else "/" + cleaned;
      if clean != "/" then WithSlash(clean, HasSuffix(p, "/")) else clean
  }

  /** Cleaning roots every path and loses none of its names but those a rooted reading drops. */
  lemma CleanedKeepsNames(p: string)
    ensures Rooted(CleanRequestPath(p))
    ensures Resolve(true, Elements(CleanRequestPath(p))) == Resolve(true, Elements(p))
    ensures !Rooted(p) && p != "" ==>
              Elements(CleanRequestPath(p)) == if Resolve(false, Elements(p)) == [] then ["."] else Resolve(false, Elements(p))
    ensures Rooted(p) || p == "" ==> Elements(CleanRequestPath(p)) == Resolve(true, Elements(p))
    ensures Rooted(p) ==> CleanRequestPath(p) == Rendered(Resolve(true, Elements(p)), HasSuffix(p, "/"))
  {
    hide Resolve, Elements, Join, HasSuffix;
    if p == "" {
      RootHasNoNames();
      ResolveNothing();
    } else if Rooted(p) {
      CleanRooted(p);
      RenderedEnd(Resolve(true, Elements(p)));
      assert Clean(p) + "" == Clean(p);
      WithSlashElements(Clean(p), HasSuffix(p, "/"));
      ResolveKeepsDotFree(Resolve(true, Elements(p)));
    } else {
      CleanUnrooted(p, []);
      CleanedUnrooted(p);
    }
  }

  lemma RootHasNoNames()
    ensures Elements("/") == [] == Elements("")
  {
    assert "/" == "/" + "";
    SlashesDoNotCount("");
  }

  lemma ResolveNothing()
    ensures Resolve(true, []) == []
  {
  }

  lemma CleanedUnrooted(p: string)
    requires !Rooted(p) && p != "" && Clean(p) != "" && !Rooted(Clean(p))
    ensures var c := Resolve(false, Elements(p));
            && Rooted(CleanRequestPath(p))
            && Elements(CleanRequestPath(p)) == (if c == [] then ["."] else c)
            && Resolve(true, Elements(CleanRequestPath(p))) == Resolve(true, Elements(p))
  {
    hide Resolve, Elements, Join, HasSuffix, Climb;
    var es := Elements(p);
    var c := Resolve(false, es);
    ElementsAreElements(p);
    ClimbFromTarget([], es);
    assert [] + c == c;
    assert Shortened([], Climb(es)) + Resolve(true, es) == Resolve(true, es);
    if c == [] {
      ElementAlone(".");
      ResolvePush(true, [], ".");
      assert [] + ["."] == ["."];
    } else {
      ElementsOfJoin(c);
    }
    SlashesDoNotCount(Clean(p));
    WithSlashElements("/" + Clean(p), HasSuffix(p, "/"));
  }

  /** Without the router's cleaning, as behind the sidecar, and without a target path: an unrooted path is
      sent on free of dots exactly when it does not climb and comes to something. */
  lemma UnrootedAloneDotFreeIff(target: string, req: string, prefix: string, stripPrefix: bool)
    requires !HasSubpath(target) && !Rooted(req) && !Strips(prefix, stripPrefix)
    ensures DotFree(Elements(JoinProxyPath(target, req, prefix, stripPrefix)))
            <==> Climb(Elements(req)) == 0 && Remainder(req, "", false) != []
  {
    hide Resolve, Elements, JoinProxyPath, Climb;
    UnrootedAlone(target, req, prefix, stripPrefix);
    ElementsAreElements(req);
    ResolveIsDotFree(Elements(req));
    ClimbShows(Climb(Elements(req)), Resolve(true, Elements(req)));
  }

  /** Whatever path came to the router: its cleaning and the join together keep it under every clean target,
      on the names that are left of it. */
  lemma ReceivedStaysUnderTarget(target: string, p: string, prefix: string, stripPrefix: bool)
    requires AlmostClean(target)
    ensures var req := CleanRequestPath(p);
            var out := JoinProxyPath(target, req, prefix, stripPrefix);
            && Rooted(out) && DotFree(Elements(out))
            && Elements(out) == Elements(target) + Remainder(req, prefix, stripPrefix)
            && (!Strips(prefix, stripPrefix) ==> Remainder(req, prefix, stripPrefix) == Resolve(true, Elements(p)))
  {
    hide Resolve, Elements, Clean, JoinProxyPath, CleanRequestPath, AlmostClean, DotFree;
    CleanedKeepsNames(p);
    StaysUnderTarget(target, CleanRequestPath(p), prefix, stripPrefix);
  }

  /** Cleaning alone does not resolve every path: it keeps the dots of one that is not rooted and climbs,
      or comes to nothing. */
  lemma CleanedIsDotFreeIff(p: string)
    ensures DotFree(Elements(CleanRequestPath(p)))
            <==> Rooted(p) || p == "" || (Climb(Elements(p)) == 0 && Resolve(true, Elements(p)) != [])
  {
    hide Resolve, Elements, CleanRequestPath, Climb;
    CleanedKeepsNames(p);
    ElementsAreElements(p);
    ResolveIsDotFree(Elements(p));
    if !Rooted(p) && p != "" {
      UnrootedIsClimb(Elements(p));
      ClimbShows(Climb(Elements(p)), Resolve(true, Elements(p)));
    }
  }

  lemma ClimbShows(k: nat, rest: seq<string>)
    requires DotFree(rest)
    ensures DotFree(Ups(k) + rest) <==> k == 0
    ensures k > 0 ==> Ups(k) + rest != []
    ensures k == 0 ==> Ups(k) + rest == rest
  {
    UpsAreUps(k);
    if k > 0 {
      assert (Ups(k) + rest)[0] == "..";
    }
  }

  // ----- inputs that show each failure -----

  /** The guard compares text: "/v1x" begins with "/v1", so this request leaves the target. */
  lemma UnrootedEscapes()
    ensures Elements("/v1") == ["v1"]
    ensures Elements(JoinProxyPath("/v1", "../v1x", "", false)) == ["v1x"]
  {
    hide Elements, JoinProxyPath, Resolve, Climb, AfterClimb, GuardPasses;
    EscapeNames();
    assert "/v1"[0] == '/' && "../v1x"[0] == '.' && "v1x"[..2] == "v1";
    UpAndDown("/v1", "../v1x", "v1", "v1x");
    UnrootedElements("/v1", "../v1x", "", false);
  }

  lemma EscapeNames()
    ensures Elements("/v1") == ["v1"] && Elements("../v1x") == ["..", "v1x"]
  {
    hide Elements;
    assert "/" + "v1" == "/v1" && ".." + "/" + "v1x" == "../v1x";
    ElementAlone("v1");
    SlashesDoNotCount("v1");
    ElementAlone("..");
    ElementAlone("v1x");
    ElementsOfSum("..", "v1x");
  }

  /** From a target of one name up and down again: the guard passes when the text of the one begins the other's. */
  lemma UpAndDown(target: string, req: string, t: string, n: string)
    requires Elements(target) == [t] && Elements(req) == ["..", n] && DotFree([t]) && DotFree([n])
    ensures AfterClimb(target, req) == [n] && (GuardPasses(target, req) <==> t <= n)
  {
    hide Elements, DotFree;
    ResolveKeepsDotFree([t]);
    assert [] + [".."] == [".."] && [".."] + [n] == ["..", n];
    ResolvePush(true, [], "..");
    ResolvePush(true, [".."], n);
    assert ["..", n][..1] == [".."];
    NotDots(n);
    assert [".."][..0] == [] && Climb([".."]) == 1;
    assert Climb(["..", n]) == 1;
    assert Resolve(true, ["..", n]) == [n];
    assert Shortened([t], 1) == [] && [] + [n] == [n];
  }

  lemma NotDots(n: string)
    requires DotFree([n])
    ensures n != "." && n != ".."
  {
    assert n in [n];
  }

  /** An empty request path is sent on as "/.". */
  lemma EmptyRequestIsDot()
    ensures Elements(JoinProxyPath("", "", "", false)) == ["."]
  {
    hide JoinProxyPath;
    UnrootedAlone("", "", "", false);
  }

  /** With the whole request path stripped, the target's dots stay. */
  lemma TargetAsWritten()
    ensures JoinProxyPath("/a/..", "/p", "/p", true) == "/a/.."
  {
  }
}
