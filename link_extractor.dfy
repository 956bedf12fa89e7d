/**
 * `LinkExtractor.extractLinks`: the anchors of a page, resolved against the page's URL,
 * normalized, and kept when their host is the crawl's target host. The HTML parser is
 * represented by the `href` values it finds, in document order, and URL resolution by
 * a function parameter.
 */
module LinkExtractor {
  import opened Wrappers
  import opened Strings
  import opened UrlNormalizer

  /** What the HTML parser makes of the page: its anchors' `href` values, or a failure. */
  datatype Document = Anchors(hrefs: seq<string>) | Unparseable

  /**
   * Resolving an `href` against the base URL: an absolute URL serialized, a parse
   * exception that skips the anchor, or any other exception, which ends the extraction.
   */
  datatype Resolution = Resolved(url: string) | Invalid | Failed

  type Resolver = (Option<string>, string) -> Resolution

  /** A normalized link is kept when its host is the target host, compared exactly. */
  predicate OnTarget(link: string, target: string) {
    ExtractSubdomain(Some(link)) == Some(target)
  }

  /** What one anchor does to the result: nothing, one link added, or the end of the extraction. */
  datatype Step = Skip | Keep(link: string) | Stop

  /** One iteration of the loop: empty and unresolvable `href` values are skipped. */
  function StepOf(href: string, base: Option<string>, target: string, resolve: Resolver): Step {
    if href == [] then Skip
    else
      match resolve(base, href)
      case Failed => Stop
      case Invalid => Skip
      case Resolved(u) =>
        var n := Normalize(Some(u)).value;
        if OnTarget(n, target) then Keep(n) else Skip
  }

  /** `f` applied to every element, in order. */
  function MapSeq<A, B>(f: A -> B, s: seq<A>): seq<B> {
    seq(|s|, i requires 0 <= i < |s| => f(s[i]))
  }

  lemma MapSeqConcat<A, B>(f: A -> B, a: seq<A>, b: seq<A>)
    ensures MapSeq(f, a + b) == MapSeq(f, a) + MapSeq(f, b)
  {
    forall i | 0 <= i < |a + b| ensures MapSeq(f, a + b)[i] == (MapSeq(f, a) + MapSeq(f, b))[i] {
      if i < |a| {
        assert (a + b)[i] == a[i];
      } else {
        assert (a + b)[i] == b[i - |a|];
      }
    }
  }

  /** The step of every anchor, in document order. */
  function Steps(hrefs: seq<string>, base: Option<string>, target: string, resolve: Resolver): seq<Step> {
    MapSeq(h => StepOf(h, base, target, resolve), hrefs)
  }

  lemma StepsAt(hrefs: seq<string>, base: Option<string>, target: string, resolve: Resolver, i: nat)
    requires i < |hrefs|
    ensures |Steps(hrefs, base, target, resolve)| == |hrefs|
    ensures Steps(hrefs, base, target, resolve)[i] == StepOf(hrefs[i], base, target, resolve)
  {
  }

  /** The loop over the steps: the links kept, in order, up to the first `Stop`. */
  function Gather(steps: seq<Step>): seq<string>
    decreases |steps|
  {
    if steps == [] then []
    else
      match steps[0]
      case Stop => []
      case Skip => Gather(steps[1..])
      case Keep(link) => [link] + Gather(steps[1..])
  }

  /** The links collected from the anchors. */
  function Collect(hrefs: seq<string>, base: Option<string>, target: string, resolve: Resolver): seq<string> {
    Gather(Steps(hrefs, base, target, resolve))
  }

  /** `extractLinks` as a function of its inputs. */
  function Extracted(doc: Document, base: Option<string>, target: Option<string>, resolve: Resolver): seq<string> {
    match target
    case None => []
    case Some(t) =>
      match doc
      case Unparseable => []
      case Anchors(hrefs) => Collect(hrefs, base, t, resolve)
  }

  /** The body of the loop for one `href`: what it does to the list of links. */
  method VisitAnchor(href: string, base: Option<string>, target: string, resolve: Resolver) returns (step: Step)
    ensures step == StepOf(href, base, target, resolve)
  {
    if href == [] {
      return Skip;
    }
    var resolution := resolve(base, href);
    if resolution.Failed? {
      return Stop;
    }
    if resolution.Invalid? {
      return Skip;
    }
    var normalized := Normalize(Some(resolution.url)).value;
    var subdomain := ExtractSubdomain(Some(normalized));
    if subdomain.Some? && subdomain.value == target {
      step := Keep(normalized);
    } else {
      step := Skip;
    }
  }

  /** `LinkExtractor.extractLinks`. */
  method ExtractLinks(doc: Document, base: Option<string>, target: Option<string>, resolve: Resolver)
    returns (links: seq<string>)
    ensures links == Extracted(doc, base, target, resolve)
  {
    links := [];
    if target.None? || doc.Unparseable? {
      return;
    }
    var t := target.value;
    var hrefs := doc.hrefs;
    ghost var steps := Steps(hrefs, base, t, resolve);
    var i := 0;
    while i < |hrefs|
      invariant 0 <= i <= |hrefs|
      invariant |steps| == |hrefs|
      invariant links + Gather(steps[i..]) == Gather(steps)
    {
      var step := VisitAnchor(hrefs[i], base, t, resolve);
      StepsAt(hrefs, base, t, resolve, i);
      assert step == steps[i];
      GatherAdvance(steps, i, links);
      if step.Stop? {
        return;
      }
      if step.Keep? {
        links := links + [step.link];
      }
      i := i + 1;
    }
    assert steps[i..] == [];
  }

  // ---------------------------------------------------------------------------------
  // The loop over the steps

  /**
   * One turn of the loop: when the links so far and those still to come make up the
   * result, step `i` keeps that so, or ends the loop with the result.
   */
  lemma GatherAdvance(steps: seq<Step>, i: nat, links: seq<string>)
    requires i < |steps|
    requires links + Gather(steps[i..]) == Gather(steps)
    ensures steps[i] == Stop ==> links == Gather(steps)
    ensures steps[i] == Skip ==> links + Gather(steps[i + 1..]) == Gather(steps)
    ensures steps[i].Keep? ==> (links + [steps[i].link]) + Gather(steps[i + 1..]) == Gather(steps)
  {
    assert steps[i..][0] == steps[i] && steps[i..][1..] == steps[i + 1..];
    var rest := Gather(steps[i + 1..]);
    if steps[i].Keep? {
      assert (links + [steps[i].link]) + rest == links + ([steps[i].link] + rest);
    }
  }

  /** Steps without a `Stop` contribute their links and let the later steps contribute theirs. */
  lemma {:induction false} GatherConcat(a: seq<Step>, b: seq<Step>)
    requires Stop !in a
    ensures Gather(a + b) == Gather(a) + Gather(b)
    decreases |a|
  {
    if a == [] {
      assert a + b == b;
    } else {
      assert (a + b)[0] == a[0];
      assert (a + b)[1..] == a[1..] + b;
      assert a[0] in a;
      GatherConcat(a[1..], b);
      if a[0].Keep? {
        assert [a[0].link] + (Gather(a[1..]) + Gather(b)) == ([a[0].link] + Gather(a[1..])) + Gather(b);
      }
    }
  }

  /** There are never more links than steps. */
  lemma {:induction false} GatherLength(steps: seq<Step>)
    ensures |Gather(steps)| <= |steps|
    decreases |steps|
  {
    if steps != [] {
      GatherLength(steps[1..]);
    }
  }

  /** Every link, in order, comes from a step that keeps it. */
  lemma {:induction false} GatherFromKeep(steps: seq<Step>)
    ensures forall k :: 0 <= k < |Gather(steps)| ==> Keep(Gather(steps)[k]) in steps
    decreases |steps|
  {
    if steps != [] {
      GatherFromKeep(steps[1..]);
      var rest := Gather(steps[1..]);
      assert forall s :: s in steps[1..] ==> s in steps;
      if steps[0].Keep? {
        assert Gather(steps) == [steps[0].link] + rest;
        assert forall k :: 1 <= k < |Gather(steps)| ==> Gather(steps)[k] == rest[k - 1];
      }
    }
  }

  // ---------------------------------------------------------------------------------
  // Properties

  /** Without a target host no link is returned. */
  lemma NoTargetNoLinks(doc: Document, base: Option<string>, resolve: Resolver)
    ensures Extracted(doc, base, None, resolve) == []
  {
  }

  /** The steps of two runs of anchors are the steps of the first followed by those of the second. */
  lemma StepsConcat(a: seq<string>, b: seq<string>, base: Option<string>, target: string, resolve: Resolver)
    ensures Steps(a + b, base, target, resolve) == Steps(a, base, target, resolve) + Steps(b, base, target, resolve)
  {
    MapSeqConcat(h => StepOf(h, base, target, resolve), a, b);
  }

  /** The steps of an anchor followed by more anchors. */
  lemma StepsCons(h: string, rest: seq<string>, base: Option<string>, target: string, resolve: Resolver)
    ensures Steps([h] + rest, base, target, resolve) == [StepOf(h, base, target, resolve)] + Steps(rest, base, target, resolve)
  {
    StepsConcat([h], rest, base, target, resolve);
  }

  /** Empty `href` values and those that do not resolve contribute nothing, and later ones are still read. */
  lemma SkippedAnchor(h: string, rest: seq<string>, base: Option<string>, target: string, resolve: Resolver)
    requires h == [] || resolve(base, h) == Invalid
    ensures Collect([h] + rest, base, target, resolve) == Collect(rest, base, target, resolve)
  {
    StepsCons(h, rest, base, target, resolve);
    var s := Steps([h] + rest, base, target, resolve);
    assert s[0] == Skip && s[1..] == Steps(rest, base, target, resolve);
  }

  /** A resolved anchor on the target host is returned: the filter drops nothing else. */
  lemma OnTargetKept(h: string, rest: seq<string>, base: Option<string>, target: string, resolve: Resolver)
    requires h != [] && resolve(base, h).Resolved?
    requires OnTarget(Normalize(Some(resolve(base, h).url)).value, target)
    ensures Collect([h] + rest, base, target, resolve) ==
            [Normalize(Some(resolve(base, h).url)).value] + Collect(rest, base, target, resolve)
  {
    StepsCons(h, rest, base, target, resolve);
    var s := Steps([h] + rest, base, target, resolve);
    assert s[0] == Keep(Normalize(Some(resolve(base, h).url)).value) && s[1..] == Steps(rest, base, target, resolve);
  }

  /** No anchor of the list makes the extraction fail. */
  predicate NoFailure(hrefs: seq<string>, base: Option<string>, resolve: Resolver) {
    forall i :: 0 <= i < |hrefs| && hrefs[i] != [] ==> !resolve(base, hrefs[i]).Failed?
  }

  /** An anchor ends the extraction exactly when its `href` is not empty and resolving it fails. */
  lemma NoFailureNoStop(hrefs: seq<string>, base: Option<string>, target: string, resolve: Resolver)
    ensures NoFailure(hrefs, base, resolve) <==> Stop !in Steps(hrefs, base, target, resolve)
  {
    var s := Steps(hrefs, base, target, resolve);
    if !NoFailure(hrefs, base, resolve) {
      var i :| 0 <= i < |hrefs| && hrefs[i] != [] && resolve(base, hrefs[i]).Failed?;
      assert s[i] == Stop;
    }
  }

  /** Without failures, the links of a page are those of its first part followed by those of the rest. */
  lemma CollectConcat(a: seq<string>, b: seq<string>, base: Option<string>, target: string, resolve: Resolver)
    requires NoFailure(a, base, resolve)
    ensures Collect(a + b, base, target, resolve) == Collect(a, base, target, resolve) + Collect(b, base, target, resolve)
  {
    NoFailureNoStop(a, base, target, resolve);
    StepsConcat(a, b, base, target, resolve);
    GatherConcat(Steps(a, base, target, resolve), Steps(b, base, target, resolve));
  }

  /** A failure keeps the links collected before it and drops everything after it. */
  lemma CollectStopsAtFailure(a: seq<string>, h: string, b: seq<string>, base: Option<string>, target: string,
                              resolve: Resolver)
    requires NoFailure(a, base, resolve)
    requires h != [] && resolve(base, h) == Failed
    ensures Collect(a + [h] + b, base, target, resolve) == Collect(a, base, target, resolve)
  {
    assert a + [h] + b == a + ([h] + b);
    CollectConcat(a, [h] + b, base, target, resolve);
    StepsCons(h, b, base, target, resolve);
    assert Steps([h] + b, base, target, resolve)[0] == Stop;
  }

  /** There are never more links than anchors. */
  lemma CollectLength(hrefs: seq<string>, base: Option<string>, target: string, resolve: Resolver)
    ensures |Collect(hrefs, base, target, resolve)| <= |hrefs|
  {
    GatherLength(Steps(hrefs, base, target, resolve));
  }

  /** An anchor that adds a link has a non-empty `href` resolving to a URL whose normal form is that link, on the target host. */
  lemma KeptAnchor(href: string, base: Option<string>, target: string, resolve: Resolver, link: string)
    requires StepOf(href, base, target, resolve) == Keep(link)
    ensures href != [] && resolve(base, href).Resolved?
    ensures link == Normalize(Some(resolve(base, href).url)).value && OnTarget(link, target)
  {
  }

  /**
   * Every link is the normalized resolution of a non-empty `href`, and its host is the
   * target host exactly.
   */
  lemma CollectedLinks(hrefs: seq<string>, base: Option<string>, target: string, resolve: Resolver)
    ensures forall k :: 0 <= k < |Collect(hrefs, base, target, resolve)| ==>
              var link := Collect(hrefs, base, target, resolve)[k];
              && OnTarget(link, target)
              && exists i :: 0 <= i < |hrefs| && hrefs[i] != [] && resolve(base, hrefs[i]).Resolved? &&
                   link == Normalize(Some(resolve(base, hrefs[i]).url)).value
  {
    var s := Steps(hrefs, base, target, resolve);
    var r := Gather(s);
    GatherFromKeep(s);
    forall k | 0 <= k < |r|
      ensures OnTarget(r[k], target)
      ensures exists i :: 0 <= i < |hrefs| && hrefs[i] != [] && resolve(base, hrefs[i]).Resolved? &&
                r[k] == Normalize(Some(resolve(base, hrefs[i]).url)).value
    {
      var i :| 0 <= i < |s| && s[i] == Keep(r[k]);
      KeptAnchor(hrefs[i], base, target, resolve, r[k]);
    }
  }

  /**
   * The host comparison is exact, so a link on a subdomain of the target host is never
   * returned, whatever the page contains.
   */
  lemma SubdomainLinksDropped(hrefs: seq<string>, base: Option<string>, target: string, resolve: Resolver,
                              link: string, prefix: string)
    requires ExtractSubdomain(Some(link)) == Some(prefix + "." + target)
    ensures link !in Collect(hrefs, base, target, resolve)
  {
    CollectedLinks(hrefs, base, target, resolve);
    assert |prefix + "." + target| > |target|;
  }

  /** Whether a resolved anchor is kept depends only on the host of the resolved URL. */
  lemma KeptByResolvedHost(u: string, target: string)
    ensures OnTarget(Normalize(Some(u)).value, target) <==> ExtractSubdomain(Some(u)) == Some(target)
  {
    ExtractSubdomainOfNormalized(Some(u));
  }
}
