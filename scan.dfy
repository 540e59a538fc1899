/**
 * `scan` (main.go:108-230): walk every document of every document root,
 * take one reference from each link-bearing element, verify each distinct
 * reference that is not ignored once, and report the dead ones in order.
 *
 * The method Scan is the loop, over a local cache map as in the source.
 * Run is the same walk as a function over the sequence of references the
 * walk meets; the lemmas about Run are what the loop guarantees.
 */
module Scan {
  import opened Html
  import opened Verdict
  import opened Sorting

  /** A document as the scan sees it: its path relative to the root, and its elements. */
  datatype Document = Document(path: string, nodes: seq<Element>)

  /** A `files.List`: one document root and the documents found under it. */
  datatype DocList = DocList(root: string, docs: seq<Document>)

  // ---------------------------------------------------------------------
  // Extraction (main.go:126-135).

  /**
   * The reference an element is tested by: `href`, else `src`, else
   * `action`, the first of them that is not empty.
   */
  function ChooseReference(e: Element): (href: string)
    ensures href == Attr(e, "href") || href == Attr(e, "src") || href == Attr(e, "action")
    ensures Attr(e, "href") != "" ==> href == Attr(e, "href")
    ensures Attr(e, "href") == "" && Attr(e, "src") != "" ==> href == Attr(e, "src")
    ensures href == "" <==> Attr(e, "href") == "" && Attr(e, "src") == "" && Attr(e, "action") == ""
  {
    if Attr(e, "href") != "" then Attr(e, "href")
    else if Attr(e, "src") != "" then Attr(e, "src")
    else Attr(e, "action")
  }

  /** Empty references and the bare "#" are skipped. */
  predicate Testable(href: string) {
    href != "" && href != "#"
  }

  /** A reference that gets verified the first time it is met. */
  predicate Admitted(href: string, ignored: seq<string>) {
    Testable(href) && href !in ignored
  }

  // ---------------------------------------------------------------------
  // The references a scan meets, in order.

  /** One element's reference, with the document it came from. */
  datatype Occurrence = Occurrence(href: string, ctx: Ctx)

  /** Some reference in `s` is `k`. */
  predicate Occurs(s: seq<Occurrence>, k: string) {
    exists i :: 0 <= i < |s| && s[i].href == k
  }

  /** Position `i` holds the first reference in `s` that is `k`. */
  predicate FirstAt(s: seq<Occurrence>, k: string, i: int) {
    0 <= i < |s| && s[i].href == k && forall j :: 0 <= j < i ==> s[j].href != k
  }

  /** The references of `elems`, one per element and in their order, all in context `ctx`. */
  function ElementRefs(elems: seq<Element>, ctx: Ctx): (r: seq<Occurrence>)
    ensures |r| == |elems|
    ensures forall i :: 0 <= i < |r| ==> r[i] == Occurrence(ChooseReference(elems[i]), ctx)
  {
    if elems == [] then []
    else ElementRefs(elems[..|elems| - 1], ctx) + [Occurrence(ChooseReference(elems[|elems| - 1]), ctx)]
  }

  /** The context of a document: its root, `filepath.Dir` of its path, and its elements. */
  function DocumentContext(root: string, d: Document, env: Env): Ctx {
    Ctx(root, env.dir(d.path), d.nodes)
  }

  /** `o` is the reference of a link element of `d`, met in `d`'s context. */
  predicate FromDocument(o: Occurrence, root: string, d: Document, env: Env) {
    o.ctx == DocumentContext(root, d, env) && exists e :: e in FindAll(d.nodes) && o.href == ChooseReference(e)
  }

  /** The references of the documents under one root, document after document. */
  function DocumentRefs(root: string, docs: seq<Document>, env: Env): seq<Occurrence>
  {
    if docs == [] then []
    else
      var d := docs[|docs| - 1];
      DocumentRefs(root, docs[..|docs| - 1], env) + ElementRefs(FindAll(d.nodes), DocumentContext(root, d, env))
  }

  /**
   * The walk over one root misses nothing and invents nothing: every
   * reference comes from a link element of one of the documents, in that
   * document's context, and every link element of every document gives one.
   */
  lemma {:induction false} DocumentRefsCover(root: string, docs: seq<Document>, env: Env)
    ensures forall o :: o in DocumentRefs(root, docs, env) ==> exists d :: d in docs && FromDocument(o, root, d, env)
    ensures forall d, e :: d in docs && e in FindAll(d.nodes) ==>
      Occurrence(ChooseReference(e), DocumentContext(root, d, env)) in DocumentRefs(root, docs, env)
  {
    if docs != [] {
      var init := docs[..|docs| - 1];
      var d := docs[|docs| - 1];
      var elems := FindAll(d.nodes);
      var ctx := DocumentContext(root, d, env);
      var refs := ElementRefs(elems, ctx);
      DocumentRefsCover(root, init, env);
      assert docs == init + [d];
      forall o | o in refs ensures FromDocument(o, root, d, env) {
        var i :| 0 <= i < |refs| && refs[i] == o;
        assert elems[i] in elems;
      }
      forall e | e in elems ensures Occurrence(ChooseReference(e), ctx) in refs {
        var i :| 0 <= i < |elems| && elems[i] == e;
        assert refs[i] == Occurrence(ChooseReference(e), ctx);
      }
    }
  }

  /** The references of the first `j + 1` documents: those of the first `j`, then those of document `j`. */
  lemma DocumentRefsPrefix(root: string, docs: seq<Document>, j: nat, env: Env)
    requires j < |docs|
    ensures DocumentRefs(root, docs[..j + 1], env) ==
      DocumentRefs(root, docs[..j], env) + ElementRefs(FindAll(docs[j].nodes), DocumentContext(root, docs[j], env))
  {
    assert docs[..j + 1][..j] == docs[..j];
  }

  /** The references of a whole scan, root after root. */
  function ListRefs(lists: seq<DocList>, env: Env): seq<Occurrence>
  {
    if lists == [] then []
    else
      var l := lists[|lists| - 1];
      ListRefs(lists[..|lists| - 1], env) + DocumentRefs(l.root, l.docs, env)
  }

  /**
   * The whole walk misses nothing and invents nothing: every reference
   * comes from a link element of a document under one of the roots, in
   * that document's context, and every such element gives one.
   */
  lemma {:induction false} ListRefsCover(lists: seq<DocList>, env: Env)
    ensures forall o :: o in ListRefs(lists, env) ==>
      exists l, d :: l in lists && d in l.docs && FromDocument(o, l.root, d, env)
    ensures forall l, d, e :: l in lists && d in l.docs && e in FindAll(d.nodes) ==>
      Occurrence(ChooseReference(e), DocumentContext(l.root, d, env)) in ListRefs(lists, env)
  {
    if lists != [] {
      var init := lists[..|lists| - 1];
      var l := lists[|lists| - 1];
      ListRefsCover(init, env);
      DocumentRefsCover(l.root, l.docs, env);
      assert lists == init + [l];
    }
  }

  // ---------------------------------------------------------------------
  // The cache, as a function of the references met.

  /**
   * One reference meets the cache (main.go:133-214): skipped when it is
   * not testable, already cached, or ignored; otherwise its verdict is
   * stored under it.
   */
  function Step(cache: map<string, Outcome>, o: Occurrence, ignored: seq<string>, env: Env): (r: map<string, Outcome>)
    ensures forall k :: k in cache ==> k in r && r[k] == cache[k]
    ensures r.Keys == if Admitted(o.href, ignored) then cache.Keys + {o.href} else cache.Keys
    ensures o.href in r && o.href !in cache ==> r[o.href] == Verify(o.href, o.ctx, env)
  {
    if !Testable(o.href) || o.href in cache || o.href in ignored then cache
    else cache[o.href := Verify(o.href, o.ctx, env)]
  }

  /**
   * The cache after the references `s` have met it in order, one `Step`
   * each: it only grows, and by at most one entry per reference.
   */
  function Run(cache: map<string, Outcome>, s: seq<Occurrence>, ignored: seq<string>, env: Env): (r: map<string, Outcome>)
    ensures cache.Keys <= r.Keys
    ensures |r| <= |cache| + |s|
  {
    if s == [] then cache
    else Step(Run(cache, s[..|s| - 1], ignored, env), s[|s| - 1], ignored, env)
  }

  /**
   * The hrefs handed to the verifier while `s` meets the cache, in that
   * order: each admitted href that is not cached when it is met. They are
   * distinct, and they are exactly the keys the walk adds.
   */
  function Calls(cache: map<string, Outcome>, s: seq<Occurrence>, ignored: seq<string>, env: Env): (r: seq<string>)
  {
    if s == [] then []
    else
      var p := s[..|s| - 1];
      var o := s[|s| - 1];
      var before := Run(cache, p, ignored, env);
      Calls(cache, p, ignored, env) + (if Admitted(o.href, ignored) && o.href !in before then [o.href] else [])
  }

  /** The keys whose stored outcome is dead. */
  function DeadKeys(cache: map<string, Outcome>): set<string> {
    set h | h in cache && cache[h].Dead?
  }

  lemma {:induction false} RunAppend(cache: map<string, Outcome>, a: seq<Occurrence>, b: seq<Occurrence>, ignored: seq<string>, env: Env)
    ensures Run(cache, a + b, ignored, env) == Run(Run(cache, a, ignored, env), b, ignored, env)
  {
    if b == [] {
      assert a + b == a;
    } else {
      var b' := b[..|b| - 1];
      RunAppend(cache, a, b', ignored, env);
      assert (a + b)[..|a + b| - 1] == a + b';
    }
  }

  lemma {:induction false} CallsAppend(cache: map<string, Outcome>, a: seq<Occurrence>, b: seq<Occurrence>, ignored: seq<string>, env: Env)
    ensures Calls(cache, a + b, ignored, env) == Calls(cache, a, ignored, env) + Calls(Run(cache, a, ignored, env), b, ignored, env)
  {
    if b == [] {
      assert a + b == a;
    } else {
      var b', o := b[..|b| - 1], b[|b| - 1];
      var mid := Run(cache, a, ignored, env);
      var added := if Admitted(o.href, ignored) && o.href !in Run(mid, b', ignored, env) then [o.href] else [];
      assert a + b == (a + b') + [o];
      assert b == b' + [o];
      calc {
        Calls(cache, a + b, ignored, env);
        { RunAppend(cache, a, b', ignored, env); CallsSnoc(cache, a + b', o, ignored, env); }
        Calls(cache, a + b', ignored, env) + added;
        { CallsAppend(cache, a, b', ignored, env); }
        (Calls(cache, a, ignored, env) + Calls(mid, b', ignored, env)) + added;
        Calls(cache, a, ignored, env) + (Calls(mid, b', ignored, env) + added);
        { CallsSnoc(mid, b', o, ignored, env); }
        Calls(cache, a, ignored, env) + Calls(mid, b, ignored, env);
      }
    }
  }

  lemma CallsSnoc(cache: map<string, Outcome>, s: seq<Occurrence>, o: Occurrence, ignored: seq<string>, env: Env)
    ensures Calls(cache, s + [o], ignored, env) == Calls(cache, s, ignored, env) +
      (if Admitted(o.href, ignored) && o.href !in Run(cache, s, ignored, env) then [o.href] else [])
  {
    assert (s + [o])[..|s|] == s;
  }

  /** The calls are distinct, and they are exactly the keys the run adds. */
  lemma {:induction false} CallsAreNewKeys(cache: map<string, Outcome>, s: seq<Occurrence>, ignored: seq<string>, env: Env)
    ensures Distinct(Calls(cache, s, ignored, env))
    ensures forall h :: h in Calls(cache, s, ignored, env) <==> h in Run(cache, s, ignored, env) && h !in cache
  {
    if s != [] {
      var p := s[..|s| - 1];
      CallsAreNewKeys(cache, p, ignored, env);
      RunKeepsEntries(cache, p, ignored, env);
    }
  }

  /** A log that ends in the calls for `s` ends in those for `s + [o]` once `o`'s call, if any, is added. */
  lemma LogSnoc(log: seq<string>, cache: map<string, Outcome>, s: seq<Occurrence>, o: Occurrence, ignored: seq<string>, env: Env)
    ensures log + Calls(cache, s + [o], ignored, env) == (log + Calls(cache, s, ignored, env)) +
      (if Admitted(o.href, ignored) && o.href !in Run(cache, s, ignored, env) then [o.href] else [])
  {
    CallsSnoc(cache, s, o, ignored, env);
  }

  /** Likewise for a whole run `b` after `a`. */
  lemma LogAppend(log: seq<string>, cache: map<string, Outcome>, a: seq<Occurrence>, b: seq<Occurrence>, ignored: seq<string>, env: Env)
    ensures log + Calls(cache, a + b, ignored, env) ==
      (log + Calls(cache, a, ignored, env)) + Calls(Run(cache, a, ignored, env), b, ignored, env)
  {
    CallsAppend(cache, a, b, ignored, env);
  }

  lemma RunSnoc(cache: map<string, Outcome>, s: seq<Occurrence>, o: Occurrence, ignored: seq<string>, env: Env)
    ensures Run(cache, s + [o], ignored, env) == Step(Run(cache, s, ignored, env), o, ignored, env)
  {
    assert (s + [o])[..|s|] == s;
  }

  /** At most once: a stored outcome is never replaced, however often its href comes back. */
  lemma {:induction false} RunKeepsEntries(cache: map<string, Outcome>, s: seq<Occurrence>, ignored: seq<string>, env: Env)
    ensures forall k :: k in cache ==> k in Run(cache, s, ignored, env) && Run(cache, s, ignored, env)[k] == cache[k]
  {
    if s != [] {
      RunKeepsEntries(cache, s[..|s| - 1], ignored, env);
    }
  }

  /** The cache holds exactly the admitted hrefs met, beside what it started with. */
  lemma {:induction false} RunKeys(cache: map<string, Outcome>, s: seq<Occurrence>, ignored: seq<string>, env: Env)
    ensures forall k :: k in Run(cache, s, ignored, env) <==> k in cache || (Admitted(k, ignored) && Occurs(s, k))
  {
    if s != [] {
      var p := s[..|s| - 1];
      RunKeys(cache, p, ignored, env);
      forall k ensures Occurs(s, k) <==> Occurs(p, k) || s[|s| - 1].href == k {
        if Occurs(s, k) {
          var i :| 0 <= i < |s| && s[i].href == k;
          if i < |p| {
            assert p[i].href == k;
          }
        }
        if Occurs(p, k) {
          var i :| 0 <= i < |p| && p[i].href == k;
          assert s[i].href == k;
        }
      }
    }
  }

  /**
   * A key that the walk added carries the verdict of the first reference
   * with that href, reached in the context of the document it appeared in.
   */
  lemma {:induction false} RunFirstOccurrence(cache: map<string, Outcome>, s: seq<Occurrence>, ignored: seq<string>, env: Env, k: string)
    requires k in Run(cache, s, ignored, env) && k !in cache
    ensures exists i :: FirstAt(s, k, i) && Run(cache, s, ignored, env)[k] == Verify(k, s[i].ctx, env)
  {
    var p := s[..|s| - 1];
    var before := Run(cache, p, ignored, env);
    if k in before {
      RunFirstOccurrence(cache, p, ignored, env, k);
      var i :| FirstAt(p, k, i) && before[k] == Verify(k, p[i].ctx, env);
      assert forall j :: 0 <= j <= i ==> s[j] == p[j];
      assert FirstAt(s, k, i);
    } else {
      RunKeys(cache, p, ignored, env);
      var i := |s| - 1;
      assert forall j :: 0 <= j < i ==> s[j] == p[j];
      assert FirstAt(s, k, i);
    }
  }

  /** `cache` without the keys in `ignored`. */
  function Without(cache: map<string, Outcome>, ignored: seq<string>): (r: map<string, Outcome>)
    ensures forall k :: k in r <==> k in cache && k !in ignored
    ensures forall k :: k in r ==> r[k] == cache[k]
  {
    map k | k in cache && k !in ignored :: cache[k]
  }

  /**
   * Ignoring more hrefs only removes their entries: every other entry, and
   * its outcome, is the same.
   */
  lemma StepIgnoreMore(cache: map<string, Outcome>, o: Occurrence, ignored: seq<string>, more: seq<string>, env: Env)
    requires forall x :: x in ignored ==> x in more
    ensures Step(Without(cache, more), o, more, env) == Without(Step(cache, o, ignored, env), more)
  {
    var left := Step(Without(cache, more), o, more, env);
    var right := Without(Step(cache, o, ignored, env), more);
    assert left.Keys == right.Keys;
  }

  lemma {:induction false} IgnoreMore(cache: map<string, Outcome>, s: seq<Occurrence>, ignored: seq<string>, more: seq<string>, env: Env)
    requires forall x :: x in ignored ==> x in more
    ensures Run(Without(cache, more), s, more, env) == Without(Run(cache, s, ignored, env), more)
  {
    if s != [] {
      var p := s[..|s| - 1];
      IgnoreMore(cache, p, ignored, more, env);
      StepIgnoreMore(Run(cache, p, ignored, env), s[|s| - 1], ignored, more, env);
    }
  }

  /**
   * Adding every dead href of a scan to the ignore list leaves nothing to
   * report.
   */
  lemma IgnoringEveryDeadLink(s: seq<Occurrence>, ignored: seq<string>, more: seq<string>, env: Env)
    requires forall x :: x in ignored ==> x in more
    requires forall h :: h in DeadKeys(Run(map[], s, ignored, env)) ==> h in more
    ensures DeadKeys(Run(map[], s, more, env)) == {}
  {
    IgnoreMore(map[], s, ignored, more, env);
    assert Without(map[], more) == map[];
    var before := Run(map[], s, ignored, env);
    var after := Run(map[], s, more, env);
    forall h | h in after ensures after[h].Alive? {
      assert h in before && h !in more;
    }
  }

  /** An ignored href is never cached, so it is never reported. */
  lemma IgnoredNeverCached(s: seq<Occurrence>, ignored: seq<string>, env: Env, h: string)
    requires h in ignored
    ensures h !in Run(map[], s, ignored, env)
  {
    RunKeys(map[], s, ignored, env);
  }

  /**
   * What a scan reports: an href is dead-listed exactly when it is
   * testable, not ignored, and the first element carrying it fails its
   * check in that element's document.
   */
  lemma DeadLinkIff(lists: seq<DocList>, ignored: seq<string>, env: Env, h: string)
    ensures var s := ListRefs(lists, env);
      h in DeadKeys(Run(map[], s, ignored, env)) <==>
        Admitted(h, ignored) && exists i :: FirstAt(s, h, i) && Verify(h, s[i].ctx, env).Dead?
  {
    var s := ListRefs(lists, env);
    var cache := Run(map[], s, ignored, env);
    RunKeys(map[], s, ignored, env);
    if h in cache {
      RunFirstOccurrence(map[], s, ignored, env, h);
      var i :| FirstAt(s, h, i) && cache[h] == Verify(h, s[i].ctx, env);
      forall i' | FirstAt(s, h, i') ensures i' == i {
        assert !(i' < i) && !(i < i');
      }
    }
  }

  // ---------------------------------------------------------------------
  // The scan itself.

  /**
   * main.go:220-228: walk the cache in any order, keep the keys whose
   * outcome is dead, and sort them.
   */
  method CollectDead(cache: map<string, Outcome>) returns (deadlinks: seq<string>)
    ensures StrictlySorted(deadlinks)
    ensures forall h :: h in deadlinks <==> h in cache && cache[h].Dead?
  {
    var dead: seq<string> := [];
    var rest := cache.Keys;
    while rest != {}
      invariant rest <= cache.Keys
      invariant Distinct(dead)
      invariant forall h :: h in dead <==> h in cache && h !in rest && cache[h].Dead?
      decreases rest
    {
      var h :| h in rest;
      if cache[h].Dead? {
        dead := dead + [h];
      }
      rest := rest - {h};
    }
    deadlinks := SortStrings(dead);
    SortedDistinctStrict(deadlinks, dead);
    forall h ensures h in deadlinks <==> h in dead {
      assert h in deadlinks <==> h in multiset(deadlinks);
      assert h in dead <==> h in multiset(dead);
    }
  }

  /**
   * One reference against the cache (main.go:133-214): skip it when it is
   * empty, "#", already cached or ignored; otherwise verify it once and
   * store the outcome. `verified` lists every href handed to the verifier
   * so far.
   */
  method Examine(cache: map<string, Outcome>, ghost verified: seq<string>, href: string, ctx: Ctx,
                 ignored: seq<string>, env: Env)
    returns (after: map<string, Outcome>, ghost verifiedAfter: seq<string>)
    requires Sorted(ignored)
    ensures after == Step(cache, Occurrence(href, ctx), ignored, env)
    ensures verifiedAfter == if Admitted(href, ignored) && href !in cache then verified + [href] else verified
  {
    after, verifiedAfter := cache, verified;
    if href == "" || href == "#" {
      return;
    }
    if href in cache {
      return;
    }
    var ignore := Contains(ignored, href);
    if ignore {
      return;
    }
    after := cache[href := Verify(href, ctx, env)];
    verifiedAfter := verified + [href];
  }

  /** The link-bearing elements of one document (main.go:118-216), in document order. */
  method ScanElements(cache: map<string, Outcome>, ghost verified: seq<string>, elems: seq<Element>, ctx: Ctx,
                      ignored: seq<string>, env: Env)
    returns (after: map<string, Outcome>, ghost verifiedAfter: seq<string>)
    requires Sorted(ignored)
    ensures after == Run(cache, ElementRefs(elems, ctx), ignored, env)
    ensures verifiedAfter == verified + Calls(cache, ElementRefs(elems, ctx), ignored, env)
  {
    after, verifiedAfter := cache, verified;
    for k := 0 to |elems|
      invariant after == Run(cache, ElementRefs(elems[..k], ctx), ignored, env)
      invariant verifiedAfter == verified + Calls(cache, ElementRefs(elems[..k], ctx), ignored, env)
    {
      var href := ChooseReference(elems[k]);
      ghost var met := ElementRefs(elems[..k], ctx);
      ghost var o := Occurrence(href, ctx);
      assert elems[..k + 1][..k] == elems[..k];
      assert ElementRefs(elems[..k + 1], ctx) == met + [o];
      RunSnoc(cache, met, o, ignored, env);
      LogSnoc(verified, cache, met, o, ignored, env);
      after, verifiedAfter := Examine(after, verifiedAfter, href, ctx, ignored, env);
    }
    assert elems[..|elems|] == elems;
  }

  /** The documents under one root (main.go:111-217). */
  method ScanDocuments(cache: map<string, Outcome>, ghost verified: seq<string>, root: string, docs: seq<Document>,
                       ignored: seq<string>, env: Env)
    returns (after: map<string, Outcome>, ghost verifiedAfter: seq<string>)
    requires Sorted(ignored)
    ensures after == Run(cache, DocumentRefs(root, docs, env), ignored, env)
    ensures verifiedAfter == verified + Calls(cache, DocumentRefs(root, docs, env), ignored, env)
  {
    after, verifiedAfter := cache, verified;
    for j := 0 to |docs|
      invariant after == Run(cache, DocumentRefs(root, docs[..j], env), ignored, env)
      invariant verifiedAfter == verified + Calls(cache, DocumentRefs(root, docs[..j], env), ignored, env)
    {
      var doc := docs[j];
      var ctx := DocumentContext(root, doc, env);
      ghost var before := DocumentRefs(root, docs[..j], env);
      ghost var refs := ElementRefs(FindAll(doc.nodes), ctx);
      DocumentRefsPrefix(root, docs, j, env);
      RunAppend(cache, before, refs, ignored, env);
      LogAppend(verified, cache, before, refs, ignored, env);
      after, verifiedAfter := ScanElements(after, verifiedAfter, FindAll(doc.nodes), ctx, ignored, env);
    }
    assert docs[..|docs|] == docs;
  }

  /**
   * main.go:108-230. Returns the dead-link list; `verified` lists every
   * href handed to the verifier, in order. The ignore list must be sorted,
   * as main.go:58 leaves it.
   */
  method Scan(lists: seq<DocList>, ignored: seq<string>, env: Env) returns (deadlinks: seq<string>, ghost verified: seq<string>)
    requires Sorted(ignored)
    ensures StrictlySorted(deadlinks)
    ensures forall h :: h in deadlinks <==> h in DeadKeys(Run(map[], ListRefs(lists, env), ignored, env))
    ensures verified == Calls(map[], ListRefs(lists, env), ignored, env)
    ensures Distinct(verified)
    ensures forall h :: h in verified <==> h in Run(map[], ListRefs(lists, env), ignored, env)
  {
    var cache: map<string, Outcome> := map[];
    verified := [];
    for i := 0 to |lists|
      invariant cache == Run(map[], ListRefs(lists[..i], env), ignored, env)
      invariant verified == Calls(map[], ListRefs(lists[..i], env), ignored, env)
    {
      ghost var before := ListRefs(lists[..i], env);
      cache, verified := ScanDocuments(cache, verified, lists[i].root, lists[i].docs, ignored, env);
      RunAppend(map[], before, DocumentRefs(lists[i].root, lists[i].docs, env), ignored, env);
      CallsAppend(map[], before, DocumentRefs(lists[i].root, lists[i].docs, env), ignored, env);
      assert lists[..i + 1][..i] == lists[..i];
    }
    assert lists[..|lists|] == lists;
    CallsAreNewKeys(map[], ListRefs(lists, env), ignored, env);
    deadlinks := CollectDead(cache);
  }
}
