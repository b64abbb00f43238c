/** `generate_cypher_query`: cleaning the language model's reply into a bare
    Cypher query, the keyword denylist, and the `(query, error)` pair it returns.
    The language model is not modelled: its reply is the parameter `reply`. */
module CypherQuery {
  import opened PyStr

  // ---------------------------------------------------------------------------
  // Cleaning the reply
  // ---------------------------------------------------------------------------

  const CypherFence: string := "```cypher"
  const Fence: string := "```"

  /** `response.text.strip().replace('```cypher', '').replace('```', '').strip()` */
  function Clean(text: string): (r: string)
    ensures IsStripped(r)
    ensures !Contains(r, Fence)
  {
    var unfenced := RemoveAll(RemoveAll(Strip(text), CypherFence), Fence);
    NoFenceAfterRemoval(RemoveAll(Strip(text), CypherFence));
    StripAddsNothing(unfenced, Fence);
    Strip(unfenced)
  }

  /** Stripping only cuts off the ends, so it cannot create an occurrence. */
  lemma StripAddsNothing(s: string, p: string)
    requires !Contains(s, p)
    ensures !Contains(Strip(s), p)
  {
    var l := LStrip(s);
    var r := RStrip(l);
    assert r == Strip(s);
    if Contains(r, p) {
      assert l[0..|r|] == r;
      ContainsSlice(l, 0, |r|, p);
      assert s[|s| - |l|..|s|] == l;
      ContainsSlice(s, |s| - |l|, |s|, p);
    }
  }

  /** After `replace('```', '')` no three backticks remain. Removal cannot
      create a new fence: the leftmost scan never keeps a backtick that sits
      right before a removed fence, since the fence would then have matched
      one position earlier. */
  lemma {:induction false} NoFenceAfterRemoval(s: string)
    ensures !Contains(RemoveAll(s, Fence), Fence)
    decreases |s|
  {
    var r := RemoveAll(s, Fence);
    if |s| < |Fence| {
      ShortNotContains(s, Fence);
    } else if s[..|Fence|] == Fence {
      NoFenceAfterRemoval(s[|Fence|..]);
    } else {
      var t := s[1..];
      var rt := RemoveAll(t, Fence);
      NoFenceAfterRemoval(t);
      assert r == [s[0]] + rt;
      assert r[1..] == rt;
      if s[0] == '`' {
        // t does not start with two backticks, so rt does not either
        assert !(t[0] == '`' && t[1] == '`') by {
          assert s[..3] == [s[0], t[0], t[1]];
        }
        RemoveAllKeepsHead(t, Fence);
        if t[0] == '`' {
          RemoveAllKeepsHead(t[1..], Fence);
          assert rt[1] == t[1];
        }
        assert !IsPrefix(Fence, r);
      }
    }
  }

  /** A fence-free string has no `cypher` fence either. */
  lemma NoCypherFence(s: string)
    requires !Contains(s, Fence)
    ensures !Contains(s, CypherFence)
  {
    if Contains(s, CypherFence) {
      assert CypherFence[..3] == Fence;
      assert IsPrefix(Fence, CypherFence);
      ContainsTrans(s, CypherFence, Fence);
    }
  }

  /** Cleaning is idempotent. */
  lemma CleanIdempotent(text: string)
    ensures Clean(Clean(text)) == Clean(text)
  {
    var c := Clean(text);
    StripStripped(c);
    NoCypherFence(c);
    RemoveAllAbsent(c, CypherFence);
    RemoveAllAbsent(c, Fence);
  }

  predicate NoBacktick(s: string) {
    forall i :: 0 <= i < |s| ==> s[i] != '`'
  }

  /** A backtick-free piece in front is left alone by removing a pattern that
      starts with a backtick. */
  lemma {:induction false} RemoveAllSkips(x: string, y: string, p: string)
    requires NoBacktick(x) && |p| > 0 && p[0] == '`'
    ensures RemoveAll(x + y, p) == x + RemoveAll(y, p)
    decreases |x|
  {
    if x == [] {
      assert x + y == y;
    } else {
      var s := x + y;
      assert s[0] == x[0] && x[0] != '`';
      assert !OccursAt(s, p, 0);
      RemoveAllKeepsHead(s, p);
      assert s[1..] == x[1..] + y;
      assert NoBacktick(x[1..]) by {
        forall i | 0 <= i < |x[1..]| ensures x[1..][i] != '`' {
          assert x[1..][i] == x[i + 1];
        }
      }
      RemoveAllSkips(x[1..], y, p);
      assert [x[0]] + (x[1..] + RemoveAll(y, p)) == x + RemoveAll(y, p);
    }
  }

  lemma AllSpaceNoBacktick(w: string)
    requires AllSpace(w)
    ensures NoBacktick(w)
  {
    forall i | 0 <= i < |w| ensures w[i] != '`' {
      assert IsSpace(w[i]);
    }
  }

  lemma NoBacktickConcat(a: string, b: string)
    requires NoBacktick(a) && NoBacktick(b)
    ensures NoBacktick(a + b)
  {
    forall i | 0 <= i < |a + b| ensures (a + b)[i] != '`' {
      if i >= |a| { assert (a + b)[i] == b[i - |a|]; }
    }
  }

  /** A reply fenced as a `cypher` code block, with any whitespace around the
      fences and the query, cleans to the bare query, provided the query is
      itself stripped and has no backticks. */
  lemma CleanFenced(w1: string, w2: string, q: string, w3: string, w4: string)
    requires AllSpace(w1) && AllSpace(w2) && AllSpace(w3) && AllSpace(w4)
    requires IsStripped(q) && NoBacktick(q)
    ensures Clean(w1 + CypherFence + w2 + q + w3 + Fence + w4) == q
  {
    var x := w2 + q + w3;
    var mid := CypherFence + (x + Fence);
    assert w1 + CypherFence + w2 + q + w3 + Fence + w4 == w1 + mid + w4;
    assert Strip(w1 + mid + w4) == mid by {
      assert mid[0] == '`' && mid[|mid| - 1] == '`';
      StripOf(w1, mid, w4);
    }
    AllSpaceNoBacktick(w2);
    AllSpaceNoBacktick(w3);
    NoBacktickConcat(w2, q);
    NoBacktickConcat(w2 + q, w3);
    Unfence(x);
    StripOf(w2, q, w3);
  }

  /** Both replacements together take a backtick-free body out of its fences. */
  lemma Unfence(x: string)
    requires NoBacktick(x)
    ensures RemoveAll(RemoveAll(CypherFence + (x + Fence), CypherFence), Fence) == x
  {
    assert RemoveAll(CypherFence + (x + Fence), CypherFence) == x + Fence by {
      DropsLeading(CypherFence, x + Fence);
      RemoveAllSkips(x, Fence, CypherFence);
      assert RemoveAll(Fence, CypherFence) == Fence;
    }
    assert RemoveAll(x + Fence, Fence) == x by {
      RemoveAllSkips(x, Fence, Fence);
      DropsLeading(Fence, []);
      assert Fence + [] == Fence;
      assert x + [] == x;
    }
  }

  /** The reply `"```cypher\n" + q + "\n```"` cleans to `q`. */
  lemma CleanCypherBlock(q: string)
    requires IsStripped(q) && NoBacktick(q)
    ensures Clean(CypherFence + "\n" + q + "\n" + Fence) == q
  {
    assert [] + CypherFence + "\n" + q + "\n" + Fence + [] == CypherFence + "\n" + q + "\n" + Fence;
    CleanFenced([], "\n", q, "\n", []);
  }

  // ---------------------------------------------------------------------------
  // The denylist
  // ---------------------------------------------------------------------------

  const ForbiddenKeywords: seq<string> := ["DELETE", "DETACH", "REMOVE", "SET", "DROP"]
  const SecurityViolation: string := "Security Violation: Potential malicious query detected."

  /** `any(word in text for word in words)` */
  function AnyIn(words: seq<string>, text: string): (r: bool)
    ensures r <==> exists k :: 0 <= k < |words| && Contains(text, words[k])
  {
    if words == [] then false
    else
      assert forall k :: 1 <= k < |words| ==> words[k] == words[1..][k - 1];
      Contains(text, words[0]) || AnyIn(words[1..], text)
  }

  /** The safety check: the upper-cased query contains a denylisted keyword. */
  predicate IsForbidden(query: string) {
    AnyIn(ForbiddenKeywords, Upper(query))
  }

  // ---------------------------------------------------------------------------
  // generate_cypher_query
  // ---------------------------------------------------------------------------

  /** What the language model call gave: the reply's text, or an exception
      whose `str(e)` is `message`. */
  datatype LlmReply = Completion(text: string) | Raised(message: string)

  /** `generate_cypher_query`: `(query, None)` on success, `(None, message)`
      on a rejected query or a failed model call. */
  function GenerateCypherQuery(reply: LlmReply): (r: (Option<string>, Option<string>))
    ensures r.0.Some? != r.1.Some?
    ensures r.0.Some? ==> IsStripped(r.0.value) && !Contains(r.0.value, Fence)
    ensures r.0.Some? ==> !IsForbidden(r.0.value)
    ensures r.0.Some? ==> forall k :: 0 <= k < |ForbiddenKeywords| ==> !Contains(Upper(r.0.value), ForbiddenKeywords[k])
    ensures reply.Raised? ==> r == (None, Some(reply.message))
  {
    match reply
    case Raised(message) => (None, Some(message))
    case Completion(text) =>
      var cleaned := Clean(text);
      if IsForbidden(cleaned) then (None, Some(SecurityViolation)) else (Some(cleaned), None)
  }

  /** The query comes back exactly when the model replied and its cleaned
      reply passes the denylist. */
  lemma GenerateSucceedsIff(reply: LlmReply, q: string)
    ensures GenerateCypherQuery(reply) == (Some(q), None) <==>
      reply.Completion? && q == Clean(reply.text) &&
      forall k :: 0 <= k < |ForbiddenKeywords| ==> !Contains(Upper(q), ForbiddenKeywords[k])
  {
  }

  /** The check is case-insensitive and substring based: a cleaned query with
      any fragment `w` whose upper-cased form holds a denylisted keyword is
      rejected with the fixed message. */
  lemma FragmentRejected(text: string, w: string)
    requires Contains(Clean(text), w) && IsForbidden(w)
    ensures GenerateCypherQuery(Completion(text)) == (None, Some(SecurityViolation))
  {
    var k :| 0 <= k < |ForbiddenKeywords| && Contains(Upper(w), ForbiddenKeywords[k]);
    UpperContains(Clean(text), w);
    ContainsTrans(Upper(Clean(text)), Upper(w), ForbiddenKeywords[k]);
  }

  /** `set`, `Set` and `offset` are all rejected: the last one only because
      `OFFSET` contains `SET`. */
  lemma DenylistExamples()
    ensures IsForbidden("set") && IsForbidden("Set") && IsForbidden("offset")
  {
    assert Upper("set") == "SET" && Upper("Set") == "SET";
    assert ForbiddenKeywords[3] == "SET";
    assert Contains("SET", "SET");
    assert Upper("offset") == "OFFSET";
    assert Contains("OFFSET", "SET");
  }
}
