/** `LinkedInContentFetcherService.analyzeContent`: sanitise the parsed page
    (drop the elements that would load something, strip event handlers and
    sources), then turn every post element into a `LinkedInPost`. The
    parsed page is a tree of `Node` values held by a `ParsedDocument`; what
    each selector query returns for a post is given as a `PostView`. */
module ContentFetch {
  import opened Wrappers
  import opened JsString
  import opened Seqs
  import opened EmailValidation

  // ---------------------------------------------------------------------
  // The records the service produces
  // ---------------------------------------------------------------------

  datatype ReactionTypes = ReactionTypes(
    like: nat, celebrate: nat, support: nat, love: nat, insightful: nat, curious: nat)

  datatype PostReactions = PostReactions(count: nat, types: ReactionTypes)

  datatype LinkedInProfile = LinkedInProfile(
    id: string, name: string, title: Option<string>, connectionDegree: Option<int>)

  /** `PostComment`; its `Date` timestamp is a clock reading. */
  datatype PostComment = PostComment(
    id: string, author: LinkedInProfile, content: string, timestamp: int,
    reactions: Option<PostReactions>)

  datatype LinkedInPost = LinkedInPost(
    id: string, author: LinkedInProfile, content: string,
    timestamp: Option<string>, reactions: Option<PostReactions>,
    comments: Option<seq<PostComment>>, emails: seq<string>, phones: seq<string>)

  // ---------------------------------------------------------------------
  // The parsed page and its sanitisation
  // ---------------------------------------------------------------------

  datatype Attr = Attr(name: string, value: string)

  /** A node of the parsed HTML tree. The HTML parser lower-cases tag and
      attribute names. */
  datatype Node = Element(tag: string, attrs: seq<Attr>, children: seq<Node>) | Text(text: string)

  function LowerAll(s: string): (r: string)
    ensures |r| == |s| && forall k :: 0 <= k < |s| ==> r[k] == Lower(s[k])
  {
    seq(|s|, k requires 0 <= k < |s| => Lower(s[k]))
  }

  /** `link[rel="prefetch"]`: in an HTML document the value of `rel` is
      compared without regard to ASCII case. */
  predicate HasPrefetchRel(attrs: seq<Attr>) {
    exists k :: 0 <= k < |attrs| && attrs[k].name == "rel" && LowerAll(attrs[k].value) == "prefetch"
  }

  /** `img, iframe, script, link[rel="prefetch"]`. */
  predicate IsNetworkElement(tag: string, attrs: seq<Attr>) {
    tag == "img" || tag == "iframe" || tag == "script" || (tag == "link" && HasPrefetchRel(attrs))
  }

  /** Every matching element is removed together with its subtree. */
  function PruneAll(nodes: seq<Node>): (r: seq<Node>)
    ensures |r| <= |nodes|
    decreases nodes
  {
    if nodes == [] then [] else PruneNode(nodes[0]) + PruneAll(nodes[1..])
  }

  function PruneNode(n: Node): (r: seq<Node>)
    ensures |r| <= 1
    decreases n
  {
    match n
    case Text(_) => [n]
    case Element(tag, attrs, children) =>
      if IsNetworkElement(tag, attrs) then [] else [Element(tag, attrs, PruneAll(children))]
  }

  /** No element anywhere in the tree would load a resource. */
  predicate NoNetwork(nodes: seq<Node>)
    decreases nodes
  {
    forall k :: 0 <= k < |nodes| ==> NoNetworkNode(nodes[k])
  }

  predicate NoNetworkNode(n: Node)
    decreases n
  {
    match n
    case Text(_) => true
    case Element(tag, attrs, children) => !IsNetworkElement(tag, attrs) && NoNetwork(children)
  }

  /** `attr.name.startsWith("on") || attr.name === "src" || attr.name === "srcset"`. */
  predicate IsRiskyName(name: string) {
    StartsWith(name, "on") || name == "src" || name == "srcset"
  }

  /** `[onclick], [onload], [src], [srcset]`: the elements that are visited. */
  predicate HasTrigger(attrs: seq<Attr>) {
    exists k :: 0 <= k < |attrs| && attrs[k].name in ["onclick", "onload", "src", "srcset"]
  }

  /** The attributes of `attrs` without a risky name, in order. */
  function KeepSafe(attrs: seq<Attr>): (r: seq<Attr>)
    ensures |r| <= |attrs|
    ensures forall k :: 0 <= k < |r| ==> !IsRiskyName(r[k].name)
    decreases |attrs|
  {
    if attrs == [] then []
    else
      var n := |attrs| - 1;
      KeepSafe(attrs[..n]) + (if IsRiskyName(attrs[n].name) then [] else [attrs[n]])
  }

  /** The attributes of one element after the handler: unchanged unless it
      matched the selector, otherwise without any risky attribute. */
  function StripAttrs(attrs: seq<Attr>): seq<Attr> {
    if HasTrigger(attrs) then KeepSafe(attrs) else attrs
  }

  function StripAll(nodes: seq<Node>): (r: seq<Node>)
    ensures |r| == |nodes|
    decreases nodes
  {
    if nodes == [] then [] else [StripNode(nodes[0])] + StripAll(nodes[1..])
  }

  function StripNode(n: Node): Node
    decreases n
  {
    match n
    case Text(_) => n
    case Element(tag, attrs, children) => Element(tag, StripAttrs(attrs), StripAll(children))
  }

  /** No element anywhere in the tree still matches the handler selector. */
  predicate NoTriggers(nodes: seq<Node>)
    decreases nodes
  {
    forall k :: 0 <= k < |nodes| ==> NoTriggersNode(nodes[k])
  }

  predicate NoTriggersNode(n: Node)
    decreases n
  {
    match n
    case Text(_) => true
    case Element(_, attrs, children) => !HasTrigger(attrs) && NoTriggers(children)
  }

  // The attribute loop: a snapshot of the risky attributes, then
  // `removeAttribute` by name for each of them.

  function Risky(attrs: seq<Attr>): (r: seq<Attr>)
    ensures forall k :: 0 <= k < |r| ==> IsRiskyName(r[k].name)
    decreases |attrs|
  {
    if attrs == [] then []
    else
      var n := |attrs| - 1;
      Risky(attrs[..n]) + (if IsRiskyName(attrs[n].name) then [attrs[n]] else [])
  }

  /** The attributes whose name is not in `names`, in order. */
  function KeepNot(attrs: seq<Attr>, names: set<string>): (r: seq<Attr>)
    ensures forall k :: 0 <= k < |r| ==> r[k].name !in names
    decreases |attrs|
  {
    if attrs == [] then []
    else
      var n := |attrs| - 1;
      KeepNot(attrs[..n], names) + (if attrs[n].name in names then [] else [attrs[n]])
  }

  /** `el.removeAttribute(name)`. */
  function RemoveAttribute(attrs: seq<Attr>, name: string): (r: seq<Attr>)
    ensures forall k :: 0 <= k < |r| ==> r[k].name != name
  {
    KeepNot(attrs, {name})
  }

  /** `Array.from(el.attributes).filter(risky).forEach(removeAttribute)`:
      removing each risky attribute of the snapshot by name leaves exactly
      the safe attributes, in their order. */
  method RemoveRiskyAttributes(attrs: seq<Attr>) returns (kept: seq<Attr>)
    ensures kept == KeepSafe(attrs)
  {
    var risky := Risky(attrs);
    kept := attrs;
    KeepNotNone(attrs);
    ghost var removed: set<string> := {};
    for i := 0 to |risky|
      invariant removed == set k | 0 <= k < i :: risky[k].name
      invariant kept == KeepNot(attrs, removed)
    {
      KeepNotTwice(attrs, removed, risky[i].name);
      kept := RemoveAttribute(kept, risky[i].name);
      removed := removed + {risky[i].name};
    }
    RiskyNames(attrs);
    KeepNotIsKeepSafe(attrs, removed);
  }

  /** An attribute's name is among the snapshot's names exactly when it is
      risky. */
  lemma RiskyNames(attrs: seq<Attr>)
    ensures var names := set j | 0 <= j < |Risky(attrs)| :: Risky(attrs)[j].name;
            forall k :: 0 <= k < |attrs| ==> (attrs[k].name in names <==> IsRiskyName(attrs[k].name))
  {
    var risky := Risky(attrs);
    RiskyMembers(attrs);
    forall k | 0 <= k < |attrs| && IsRiskyName(attrs[k].name)
      ensures attrs[k].name in set j | 0 <= j < |risky| :: risky[j].name
    {
      var j :| 0 <= j < |risky| && risky[j] == attrs[k];
    }
  }

  /** The document the service parses, sanitised in place: `nodes` are
      its top-level nodes, so a query reaches every element of the page. */
  class ParsedDocument {
    var nodes: seq<Node>

    constructor (nodes: seq<Node>)
      ensures this.nodes == nodes
    {
      this.nodes := nodes;
    }

    /** `querySelectorAll('img, iframe, script, link[rel="prefetch"]')
        .forEach((el) => el.remove())`. */
    method RemoveNetworkElements()
      modifies this
      ensures nodes == PruneAll(old(nodes))
    {
      nodes := PruneAll(nodes);
    }

    /** `querySelectorAll("[onclick], [onload], [src], [srcset]")` and the
        attribute loop on every element found. */
    method RemoveEventHandlers()
      modifies this
      ensures nodes == StripAll(old(nodes))
    {
      nodes := StripTree(nodes);
    }
  }

  method StripTree(nodes: seq<Node>) returns (r: seq<Node>)
    ensures r == StripAll(nodes)
    decreases nodes
  {
    if nodes == [] {
      r := [];
    } else {
      var head := StripElement(nodes[0]);
      var tail := StripTree(nodes[1..]);
      r := [head] + tail;
    }
  }

  method StripElement(n: Node) returns (m: Node)
    ensures m == StripNode(n)
    decreases n
  {
    match n
    case Text(_) =>
      m := n;
    case Element(tag, attrs, children) =>
      var kept := attrs;
      if HasTrigger(attrs) {
        kept := RemoveRiskyAttributes(attrs);
      }
      var stripped := StripTree(children);
      m := Element(tag, kept, stripped);
  }

  // ---------------------------------------------------------------------
  // Properties of the sanitisation
  // ---------------------------------------------------------------------

  lemma {:induction false} RiskyMembers(attrs: seq<Attr>)
    ensures forall a :: a in Risky(attrs) <==> a in attrs && IsRiskyName(a.name)
    decreases |attrs|
  {
    if attrs != [] {
      var n := |attrs| - 1;
      RiskyMembers(attrs[..n]);
      assert attrs == attrs[..n] + [attrs[n]];
    }
  }

  lemma {:induction false} KeepNotNone(attrs: seq<Attr>)
    ensures KeepNot(attrs, {}) == attrs
    decreases |attrs|
  {
    if attrs != [] {
      var n := |attrs| - 1;
      KeepNotNone(attrs[..n]);
      assert attrs == attrs[..n] + [attrs[n]];
    }
  }

  /** Removing one more name from a filtered list is filtering by the
      larger set. */
  lemma {:induction false} KeepNotTwice(attrs: seq<Attr>, names: set<string>, name: string)
    ensures KeepNot(KeepNot(attrs, names), {name}) == KeepNot(attrs, names + {name})
    decreases |attrs|
  {
    if attrs != [] {
      var n := |attrs| - 1;
      var pre := KeepNot(attrs[..n], names);
      KeepNotTwice(attrs[..n], names, name);
      if attrs[n].name !in names {
        assert KeepNot(attrs, names) == pre + [attrs[n]];
        assert (pre + [attrs[n]])[..|pre|] == pre;
      } else {
        assert KeepNot(attrs, names) == pre;
      }
    }
  }

  /** Filtering by a set that holds exactly the risky names present keeps
      exactly the safe attributes. */
  lemma {:induction false} KeepNotIsKeepSafe(attrs: seq<Attr>, names: set<string>)
    requires forall k :: 0 <= k < |attrs| ==> (attrs[k].name in names <==> IsRiskyName(attrs[k].name))
    ensures KeepNot(attrs, names) == KeepSafe(attrs)
    decreases |attrs|
  {
    if attrs != [] {
      var n := |attrs| - 1;
      KeepNotIsKeepSafe(attrs[..n], names);
    }
  }

  /** The handler keeps exactly the attributes with a safe name, in order. */
  lemma {:induction false} KeepSafeMembers(attrs: seq<Attr>)
    ensures forall a :: a in KeepSafe(attrs) <==> a in attrs && !IsRiskyName(a.name)
    ensures IsSubsequence(KeepSafe(attrs), attrs)
    decreases |attrs|
  {
    if attrs != [] {
      var n := |attrs| - 1;
      var front := attrs[..n];
      var pre := KeepSafe(front);
      KeepSafeMembers(front);
      assert attrs == front + [attrs[n]];
      if IsRiskyName(attrs[n].name) {
        assert KeepSafe(attrs) == pre;
        SubsequenceExtend(pre, front, attrs[n]);
      } else {
        assert KeepSafe(attrs) == pre + [attrs[n]];
        SubsequenceSnoc(pre, front, attrs[n]);
      }
    }
  }

  /** After the handler an element no longer matches the selector, and one
      that did not match is left as it was. */
  lemma StripAttrsRemovesTriggers(attrs: seq<Attr>)
    ensures !HasTrigger(StripAttrs(attrs))
    ensures !HasTrigger(attrs) ==> StripAttrs(attrs) == attrs
  {
    if HasTrigger(attrs) {
      var r := KeepSafe(attrs);
      forall k | 0 <= k < |r| ensures r[k].name !in ["onclick", "onload", "src", "srcset"] {
        assert !IsRiskyName(r[k].name);
        assert StartsWith("onclick", "on") && StartsWith("onload", "on");
      }
    }
  }

  /** An inline handler other than `onclick` and `onload` survives on an
      element that carries no trigger attribute. */
  lemma MouseOverHandlerSurvives(value: string)
    ensures StripAttrs([Attr("onmouseover", value)]) == [Attr("onmouseover", value)]
  {
    assert !HasTrigger([Attr("onmouseover", value)]);
  }

  /** On an element that carries `src`, every `on…` handler goes too. */
  lemma SourceElementLosesAllHandlers(src: string, handler: string, cls: string)
    ensures StripAttrs([Attr("src", src), Attr("onmouseover", handler), Attr("class", cls)])
            == [Attr("class", cls)]
  {
    var attrs := [Attr("src", src), Attr("onmouseover", handler), Attr("class", cls)];
    assert attrs[0].name in ["onclick", "onload", "src", "srcset"];
    assert !IsRiskyName("class") by { assert "class"[..2][1] != "on"[1]; }
    assert IsRiskyName("onmouseover") by { assert "onmouseover"[..2] == "on"; }
    assert attrs[..1][..0] == [];
    assert KeepSafe(attrs[..1]) == [];
    assert attrs[..2][..1] == attrs[..1];
    assert KeepSafe(attrs[..2]) == [];
    assert attrs[..2] == attrs[..|attrs| - 1];
    assert KeepSafe(attrs) == [attrs[2]];
  }

  lemma NoNetworkConcat(a: seq<Node>, b: seq<Node>)
    requires NoNetwork(a) && NoNetwork(b)
    ensures NoNetwork(a + b)
  {
    forall k | 0 <= k < |a + b| ensures NoNetworkNode((a + b)[k]) {
      if k < |a| { assert (a + b)[k] == a[k]; } else { assert (a + b)[k] == b[k - |a|]; }
    }
  }

  /** After the removal no element that loads a resource remains, at any
      depth. */
  lemma {:induction false} PruneAllSafe(nodes: seq<Node>)
    ensures NoNetwork(PruneAll(nodes))
    decreases nodes
  {
    if nodes != [] {
      PruneNodeSafe(nodes[0]);
      PruneAllSafe(nodes[1..]);
      NoNetworkConcat(PruneNode(nodes[0]), PruneAll(nodes[1..]));
    }
  }

  lemma {:induction false} PruneNodeSafe(n: Node)
    ensures NoNetwork(PruneNode(n))
    decreases n
  {
    match n
    case Text(_) =>
    case Element(tag, attrs, children) =>
      if !IsNetworkElement(tag, attrs) {
        PruneAllSafe(children);
        assert NoNetworkNode(PruneNode(n)[0]);
      }
  }

  /** A tree with nothing to remove is left unchanged, so removing twice is
      removing once. */
  lemma {:induction false} PruneAllKeepsSafe(nodes: seq<Node>)
    requires NoNetwork(nodes)
    ensures PruneAll(nodes) == nodes
    decreases nodes
  {
    if nodes != [] {
      assert NoNetworkNode(nodes[0]);
      match nodes[0] {
        case Text(_) =>
        case Element(tag, attrs, children) => PruneAllKeepsSafe(children);
      }
      assert NoNetwork(nodes[1..]) by {
        forall k | 0 <= k < |nodes[1..]| ensures NoNetworkNode(nodes[1..][k]) {
          assert nodes[1..][k] == nodes[k + 1];
        }
      }
      PruneAllKeepsSafe(nodes[1..]);
    }
  }

  lemma PruneAllIdempotent(nodes: seq<Node>)
    ensures PruneAll(PruneAll(nodes)) == PruneAll(nodes)
  {
    PruneAllSafe(nodes);
    PruneAllKeepsSafe(PruneAll(nodes));
  }

  /** After the handler no element anywhere matches its selector. */
  lemma {:induction false} StripAllSafe(nodes: seq<Node>)
    ensures NoTriggers(StripAll(nodes))
    decreases nodes
  {
    if nodes != [] {
      StripNodeSafe(nodes[0]);
      StripAllSafe(nodes[1..]);
      var r := StripAll(nodes);
      forall k | 0 <= k < |r| ensures NoTriggersNode(r[k]) {
        if k > 0 { assert r[k] == StripAll(nodes[1..])[k - 1]; }
      }
    }
  }

  lemma {:induction false} StripNodeSafe(n: Node)
    ensures NoTriggersNode(StripNode(n))
    decreases n
  {
    match n
    case Text(_) =>
    case Element(tag, attrs, children) =>
      StripAttrsRemovesTriggers(attrs);
      StripAllSafe(children);
  }

  /** A tree in which nothing matches the selector is left unchanged, so
      the handler is idempotent. */
  lemma {:induction false} StripAllKeepsSafe(nodes: seq<Node>)
    requires NoTriggers(nodes)
    ensures StripAll(nodes) == nodes
    decreases nodes
  {
    if nodes != [] {
      assert NoTriggersNode(nodes[0]);
      match nodes[0] {
        case Text(_) =>
        case Element(tag, attrs, children) =>
          StripAttrsRemovesTriggers(attrs);
          StripAllKeepsSafe(children);
      }
      assert NoTriggers(nodes[1..]) by {
        forall k | 0 <= k < |nodes[1..]| ensures NoTriggersNode(nodes[1..][k]) {
          assert nodes[1..][k] == nodes[k + 1];
        }
      }
      StripAllKeepsSafe(nodes[1..]);
    }
  }

  lemma StripAllIdempotent(nodes: seq<Node>)
    ensures StripAll(StripAll(nodes)) == StripAll(nodes)
  {
    StripAllSafe(nodes);
    StripAllKeepsSafe(StripAll(nodes));
  }

  /** Stripping attributes never turns an element into a network element:
      `rel` is not a risky name and stripping only removes attributes. */
  lemma {:induction false} StripAllKeepsNoNetwork(nodes: seq<Node>)
    requires NoNetwork(nodes)
    ensures NoNetwork(StripAll(nodes))
    decreases nodes
  {
    if nodes != [] {
      assert NoNetworkNode(nodes[0]);
      match nodes[0] {
        case Text(_) =>
        case Element(tag, attrs, children) =>
          StripAllKeepsNoNetwork(children);
          KeepSafeMembers(attrs);
          assert NoNetworkNode(StripNode(nodes[0]));
      }
      assert NoNetwork(nodes[1..]) by {
        forall k | 0 <= k < |nodes[1..]| ensures NoNetworkNode(nodes[1..][k]) {
          assert nodes[1..][k] == nodes[k + 1];
        }
      }
      StripAllKeepsNoNetwork(nodes[1..]);
      var r := StripAll(nodes);
      forall k | 0 <= k < |r| ensures NoNetworkNode(r[k]) {
        if k > 0 { assert r[k] == StripAll(nodes[1..])[k - 1]; } else { assert r[k] == StripNode(nodes[0]); }
      }
    }
  }

  /** The two steps of `analyzeContent` leave a page with no element that
      loads a resource and no element that matches the handler selector. */
  lemma SanitizedPageIsSafe(nodes: seq<Node>)
    ensures NoNetwork(StripAll(PruneAll(nodes))) && NoTriggers(StripAll(PruneAll(nodes)))
  {
    PruneAllSafe(nodes);
    StripAllKeepsNoNetwork(PruneAll(nodes));
    StripAllSafe(PruneAll(nodes));
  }

  // ---------------------------------------------------------------------
  // extractEmails
  // ---------------------------------------------------------------------

  /** The mapping over the `a[href^="mailto:"][data-test-app-aware-link]`
      links: a present, non-empty `href` gives its text with the first
      "mailto:" removed, trimmed; the others are dropped. */
  function MailtoEmails(hrefs: seq<Option<string>>): (r: seq<string>)
    ensures |r| <= |hrefs|
    decreases |hrefs|
  {
    if hrefs == [] then []
    else
      var n := |hrefs| - 1;
      MailtoEmails(hrefs[..n]) +
        (match hrefs[n]
         case Some(h) => if h != "" then [Trim(ReplaceFirst(h, "mailto:", ""))] else []
         case None => [])
  }

  /** `extractEmails`: the cleaned addresses of the mailto links when there
      is at least one; otherwise those of the regular-expression matches in
      the element's rendered text. Every address returned is valid. */
  function ExtractEmails(hrefs: seq<Option<string>>, textMatches: seq<string>): (r: seq<string>)
    ensures forall x :: x in r ==> IsValidEmail(x)
  {
    var mailto := MailtoEmails(hrefs);
    CleanedEmailsSound(mailto);
    CleanedEmailsSound(textMatches);
    if |mailto| == 0 then CleanedEmails(textMatches) else CleanedEmails(mailto)
  }

  /** A link the selector matches starts with "mailto:", so its address is
      the trimmed rest of the `href`. */
  lemma MailtoAddress(h: string)
    requires StartsWith(h, "mailto:")
    ensures MailtoEmails([Some(h)]) == [Trim(h[7..])]
  {
    assert OccursAt(h, 0, "mailto:");
    assert IndexOf(h, "mailto:") == Some(0);
    assert ReplaceFirst(h, "mailto:", "") == h[7..] by {
      assert h[..0] + "" + h[7..] == h[7..];
    }
    assert [Some(h)][..0] == [];
    assert MailtoEmails([Some(h)]) == MailtoEmails([]) + [Trim(ReplaceFirst(h, "mailto:", ""))];
  }

  /** The text is consulted only when no link yields an address; as soon
      as one does, the result depends on the links alone. */
  lemma MailtoLinksTakePrecedence(hrefs: seq<Option<string>>, textMatches: seq<string>, otherMatches: seq<string>)
    requires MailtoEmails(hrefs) != []
    ensures ExtractEmails(hrefs, textMatches) == ExtractEmails(hrefs, otherMatches) == CleanedEmails(MailtoEmails(hrefs))
  {
  }

  lemma TextFallbackWithoutLinks(hrefs: seq<Option<string>>, textMatches: seq<string>)
    requires MailtoEmails(hrefs) == []
    ensures ExtractEmails(hrefs, textMatches) == CleanedEmails(textMatches)
    ensures forall x :: x in ExtractEmails(hrefs, textMatches) <==>
              exists k :: 0 <= k < |textMatches| && ValidateAndCleanEmail(textMatches[k]) == Some(x)
  {
    CleanedEmailsSound(textMatches);
    forall x | exists k :: 0 <= k < |textMatches| && ValidateAndCleanEmail(textMatches[k]) == Some(x)
      ensures x in CleanedEmails(textMatches)
    {
      var k :| 0 <= k < |textMatches| && ValidateAndCleanEmail(textMatches[k]) == Some(x);
      CleanedEmailsComplete(textMatches, k);
    }
  }

  /** A link whose `href` is just "mailto:" yields the empty address, which
      the validator rejects; the text is then never searched, so the post
      gets no address even when its text shows a valid one. */
  lemma EmptyMailtoHidesText(textMatches: seq<string>)
    ensures ExtractEmails([Some("mailto:")], textMatches) == []
  {
    MailtoAddress("mailto:");
    assert Trim("") == "" by { TrimOfTrimmed(""); }
    assert MailtoEmails([Some("mailto:")]) == [""];
    assert !IsValidEmail(CleanDomainSuffixes("")) by {
      assert CleanDomainSuffixes("") == "";
      assert IndexOf("", "@").None?;
    }
    CleanedEmailsSnoc([], "");
    assert [] + [""] == [""];
    assert CleanedEmails([]) == [];
  }

  // ---------------------------------------------------------------------
  // extractPhoneNumbers
  // ---------------------------------------------------------------------

  /** `s.replace(/\s+/g, " ")`: every maximal run of whitespace becomes a
      single space. */
  function CollapseWhitespace(s: string): (r: string)
    ensures |r| <= |s|
    decreases |s|
  {
    if s == [] then []
    else if IsWhitespace(s[0]) then " " + CollapseWhitespace(TrimStart(s))
    else [s[0]] + CollapseWhitespace(s[1..])
  }

  /** The collapsed string is single-spaced, and starts with a space
      exactly when the original starts with whitespace. */
  lemma {:induction false} CollapseIsSingleSpaced(s: string)
    ensures SingleSpaced(CollapseWhitespace(s))
    ensures s != [] ==> CollapseWhitespace(s) != [] && (IsWhitespace(s[0]) <==> CollapseWhitespace(s)[0] == ' ')
    decreases |s|
  {
    if s != [] {
      var r := CollapseWhitespace(s);
      if IsWhitespace(s[0]) {
        var t := TrimStart(s);
        TrimStartSpec(s);
        CollapseIsSingleSpaced(t);
        assert r == " " + CollapseWhitespace(t);
      } else {
        CollapseIsSingleSpaced(s[1..]);
        assert r == [s[0]] + CollapseWhitespace(s[1..]);
      }
    }
  }

  /** `match.replace(/\s+/g, " ").trim()`. */
  function Normalize(m: string): string {
    Trim(CollapseWhitespace(m))
  }

  /** Whitespace occurs only as single spaces. */
  ghost predicate SingleSpaced(p: string) {
    && (forall k :: 0 <= k < |p| && IsWhitespace(p[k]) ==> p[k] == ' ')
    && (forall j, k :: 0 <= j < k < |p| && k == j + 1 && p[j] == ' ' ==> p[k] != ' ')
  }

  /** The form every stored phone number has: single spaces inside, no
      whitespace at either end. */
  ghost predicate IsNormalized(p: string) {
    SingleSpaced(p) && (p == [] || (!IsWhitespace(p[0]) && !IsWhitespace(p[|p| - 1])))
  }

  lemma NormalizeIsNormalized(m: string)
    ensures IsNormalized(Normalize(m))
  {
    var c := CollapseWhitespace(m);
    CollapseIsSingleSpaced(m);
    var r := Trim(c);
    TrimSpec(c);
    var a := |c| - |TrimStart(c)|;
    forall k | 0 <= k < |r| ensures r[k] == c[a + k] {
      assert r[k] == c[a..a + |r|][k];
    }
  }

  /** A single-spaced string has nothing to collapse. */
  lemma {:induction false} CollapseSingleSpaced(p: string)
    requires SingleSpaced(p)
    ensures CollapseWhitespace(p) == p
    decreases |p|
  {
    if p != [] {
      assert SingleSpaced(p[1..]) by {
        forall k | 0 <= k < |p[1..]| - 1 && p[1..][k] == ' ' ensures p[1..][k + 1] != ' ' {
          assert p[k + 1] == ' ';
        }
      }
      CollapseSingleSpaced(p[1..]);
      if IsWhitespace(p[0]) {
        assert TrimStart(p) == p[1..] by {
          assert TrimStart(p) == TrimStart(p[1..]);
          if |p| > 1 { assert p[1] != ' '; }
        }
        assert p == " " + p[1..];
      } else {
        assert p == [p[0]] + p[1..];
      }
    }
  }

  /** Normalising a normalised number changes nothing. */
  lemma NormalizeIdempotent(m: string)
    ensures Normalize(Normalize(m)) == Normalize(m)
  {
    var p := Normalize(m);
    NormalizeIsNormalized(m);
    CollapseSingleSpaced(p);
    TrimOfTrimmed(p);
  }

  /** All matches, pattern by pattern, each pattern's in text order. */
  function Flatten(matches: seq<seq<string>>): (r: seq<string>)
    decreases |matches|
  {
    if matches == [] then []
    else
      var n := |matches| - 1;
      Flatten(matches[..n]) + matches[n]
  }

  function NormalizeAll(ms: seq<string>): (r: seq<string>)
    ensures |r| == |ms| && forall k :: 0 <= k < |ms| ==> r[k] == Normalize(ms[k])
  {
    seq(|ms|, k requires 0 <= k < |ms| => Normalize(ms[k]))
  }

  /** The list `extractPhoneNumbers` returns: the normalised matches in the
      insertion order of a `Set`. */
  function PhoneList(matches: seq<seq<string>>): seq<string> {
    Dedup(NormalizeAll(Flatten(matches)))
  }

  /** `extractPhoneNumbers`: for each of the four patterns, in order, add
      every normalised match to a `Set`; return the set's elements. */
  method ExtractPhoneNumbers(matches: seq<seq<string>>) returns (phones: seq<string>)
    ensures phones == PhoneList(matches)
  {
    phones := [];
    for i := 0 to |matches|
      invariant phones == Dedup(NormalizeAll(Flatten(matches[..i])))
    {
      ghost var before := Flatten(matches[..i]);
      assert before + matches[i][..0] == before;
      for j := 0 to |matches[i]|
        invariant phones == Dedup(NormalizeAll(before + matches[i][..j]))
      {
        var cleaned := Normalize(matches[i][j]);
        PhoneStep(before, matches[i], j);
        if cleaned !in phones {
          phones := phones + [cleaned];
        }
      }
      PatternDone(matches, i);
    }
    AllPatternsDone(matches);
  }

  /** One more match: its normalised form is added unless already present. */
  lemma PhoneStep(before: seq<string>, row: seq<string>, j: nat)
    requires j < |row|
    ensures var d := Dedup(NormalizeAll(before + row[..j]));
            Dedup(NormalizeAll(before + row[..j + 1])) ==
              if Normalize(row[j]) in d then d else d + [Normalize(row[j])]
  {
    var xs := before + row[..j];
    assert before + row[..j + 1] == xs + [row[j]];
    assert NormalizeAll(xs + [row[j]]) == NormalizeAll(xs) + [Normalize(row[j])];
    DedupSnoc(NormalizeAll(xs), Normalize(row[j]));
  }

  lemma PatternDone(matches: seq<seq<string>>, i: nat)
    requires i < |matches|
    ensures Flatten(matches[..i]) + matches[i][..|matches[i]|] == Flatten(matches[..i + 1])
  {
    assert matches[..i + 1][..i] == matches[..i];
    assert matches[i][..|matches[i]|] == matches[i];
  }

  lemma AllPatternsDone(matches: seq<seq<string>>)
    ensures Flatten(matches[..|matches|]) == Flatten(matches)
  {
    assert matches[..|matches|] == matches;
  }

  /** The numbers returned are distinct and normalised, and they are
      exactly the normalised forms of the matches. */
  lemma PhoneListContents(matches: seq<seq<string>>)
    ensures Distinct(PhoneList(matches))
    ensures forall k :: 0 <= k < |PhoneList(matches)| ==> IsNormalized(PhoneList(matches)[k])
    ensures forall p :: p in PhoneList(matches) <==>
              exists k :: 0 <= k < |Flatten(matches)| && p == Normalize(Flatten(matches)[k])
  {
    var xs := NormalizeAll(Flatten(matches));
    DedupMembers(xs);
    forall k | 0 <= k < |PhoneList(matches)| ensures IsNormalized(PhoneList(matches)[k]) {
      var p := PhoneList(matches)[k];
      assert p in xs;
      var j :| 0 <= j < |xs| && xs[j] == p;
      NormalizeIsNormalized(Flatten(matches)[j]);
    }
  }

  lemma {:induction false} FlattenPrefix(matches: seq<seq<string>>, i: nat)
    requires i <= |matches|
    ensures var f := Flatten(matches[..i]); |f| <= |Flatten(matches)| && Flatten(matches)[..|f|] == f
    decreases |matches|
  {
    if i < |matches| {
      var n := |matches| - 1;
      assert matches[..n][..i] == matches[..i];
      FlattenPrefix(matches[..n], i);
    } else {
      assert matches[..i] == matches;
    }
  }

  /** First-seen order: the numbers found by the earlier patterns come
      first, as the set returned after those patterns alone. */
  lemma PhoneListFirstSeen(matches: seq<seq<string>>, i: nat)
    requires i <= |matches|
    ensures var early := PhoneList(matches[..i]);
            |early| <= |PhoneList(matches)| && PhoneList(matches)[..|early|] == early
  {
    var flat := Flatten(matches);
    var f := Flatten(matches[..i]);
    FlattenPrefix(matches, i);
    assert NormalizeAll(flat)[..|f|] == NormalizeAll(f);
    DedupPrefix(NormalizeAll(flat), |f|);
  }

  /** The same number found by two patterns, with different spacing, is
      kept once. */
  lemma PhoneFoundTwiceKeptOnce(m1: string, m2: string)
    requires Normalize(m1) == Normalize(m2)
    ensures PhoneList([[m1], [m2]]) == [Normalize(m1)]
  {
    var ms := [[m1], [m2]];
    assert ms[..1][..0] == [];
    assert Flatten(ms[..1]) == [m1];
    assert Flatten(ms) == [m1, m2];
    var xs := NormalizeAll([m1, m2]);
    assert xs == [Normalize(m1), Normalize(m1)];
    assert xs[..1][..0] == [];
    assert Dedup(xs[..1]) == [Normalize(m1)];
  }

  // ---------------------------------------------------------------------
  // extractConnectionDegree, getBasicReactions, extractAuthorInfo
  // ---------------------------------------------------------------------

  /** `extractConnectionDegree`: 2 when the connections text contains
      "2nd", else 3 when it contains "3rd", else undefined. */
  function ConnectionDegree(text: Option<string>): (r: Option<int>)
  {
    match text
    case None => None
    case Some(t) => if Includes(t, "2nd") then Some(2) else if Includes(t, "3rd") then Some(3) else None
  }

  lemma ConnectionDegreeCases(text: Option<string>)
    ensures ConnectionDegree(text) == Some(2) <==> text.Some? && exists i :: OccursAt(text.value, i, "2nd")
    ensures ConnectionDegree(text) == Some(3) <==>
              text.Some? && (forall i :: !OccursAt(text.value, i, "2nd")) && exists i :: OccursAt(text.value, i, "3rd")
    ensures ConnectionDegree(text).None? <==>
              text.None? || forall i :: !OccursAt(text.value, i, "2nd") && !OccursAt(text.value, i, "3rd")
  {
    if text.Some? {
      IncludesIff(text.value, "2nd");
      IncludesIff(text.value, "3rd");
    }
  }

  /** `.replace(/[^0-9]/g, "")`: the ASCII digits, in order. */
  function KeepDigits(s: string): (r: string)
    ensures |r| <= |s| && forall k :: 0 <= k < |r| ==> IsAsciiDigit(r[k])
    decreases |s|
  {
    if s == [] then []
    else
      var n := |s| - 1;
      KeepDigits(s[..n]) + (if IsAsciiDigit(s[n]) then [s[n]] else [])
  }

  predicate AllDigits(s: string) {
    forall k :: 0 <= k < |s| ==> IsAsciiDigit(s[k])
  }

  /** `parseInt` of a string of ASCII digits, in base 10. */
  function DecimalValue(ds: string): nat
    requires AllDigits(ds)
    decreases |ds|
  {
    if ds == [] then 0
    else
      var n := |ds| - 1;
      DecimalValue(ds[..n]) * 10 + (ds[n] as int - '0' as int)
  }

  const NoReactions := ReactionTypes(0, 0, 0, 0, 0, 0)

  /** `getBasicReactions`: the digits of the reactions-count text, "0" when
      there is no such element or no digit, read as a number; every
      per-type count is 0. */
  function BasicReactions(countText: Option<string>): (r: PostReactions)
    ensures r.types == NoReactions
    ensures countText.None? ==> r.count == 0
    ensures countText.Some? ==> r.count == DecimalValue(KeepDigits(countText.value))
  {
    var digits := match countText case None => "" case Some(t) => KeepDigits(t);
    var text := if digits == "" then "0" else digits;
    PostReactions(DecimalValue(text), NoReactions)
  }

  /** The digits kept from a concatenation are the digits of each part. */
  lemma {:induction false} KeepDigitsConcat(a: string, b: string)
    ensures KeepDigits(a + b) == KeepDigits(a) + KeepDigits(b)
    decreases |b|
  {
    if b != [] {
      var n := |b| - 1;
      assert (a + b)[..|a| + n] == a + b[..n];
      KeepDigitsConcat(a, b[..n]);
    } else {
      assert a + b == a;
    }
  }

  /** A text made of digits only is kept whole. */
  lemma {:induction false} KeepDigitsOfDigits(s: string)
    requires AllDigits(s)
    ensures KeepDigits(s) == s
    decreases |s|
  {
    if s != [] {
      var n := |s| - 1;
      KeepDigitsOfDigits(s[..n]);
      assert s == s[..n] + [s[n]];
    }
  }

  /** Separators inside the count are ignored: "1,234" counts 1234. */
  lemma ReactionsWithThousandsSeparator(s: string)
    requires s == "1,234"
    ensures BasicReactions(Some(s)).count == 1234
  {
    assert s == "1," + "234";
    KeepDigitsConcat("1,", "234");
    KeepDigitsOfDigits("234");
    assert KeepDigits("1,") == "1" by {
      assert "1,"[..1] == "1";
      assert "1"[..0] == "";
    }
    assert KeepDigits(s) == "1234";
    DecimalExample("1234");
  }

  lemma DecimalExample(ds: string)
    requires ds == "1234"
    ensures AllDigits(ds) && DecimalValue(ds) == 1234
  {
    assert ds[..3] == "123" && ds[..3][..2] == "12" && ds[..3][..2][..1] == "1" && ds[..3][..2][..1][..0] == "";
    assert DecimalValue("1") == 1;
    assert DecimalValue("12") == 12;
    assert DecimalValue("123") == 123;
  }

  /** `textContent?.trim() || fallback`. */
  function TrimOr(text: Option<string>, fallback: string): (r: string)
    ensures text.Some? && Trim(text.value) != "" ==> r == Trim(text.value)
    ensures text.None? || Trim(text.value) == "" ==> r == fallback
    ensures r == fallback || (r != "" && !IsWhitespace(r[0]) && !IsWhitespace(r[|r| - 1]))
  {
    match text
    case None => fallback
    case Some(t) => TrimSpec(t); if Trim(t) != "" then Trim(t) else fallback
  }

  /** `extractAuthorInfo`: the trimmed name ("Unknown" when missing or
      blank), the trimmed title when the element exists, and the
      connection degree. */
  function AuthorInfo(id: string, nameText: Option<string>, titleText: Option<string>, connectionsText: Option<string>): (r: LinkedInProfile)
    ensures r.id == id && r.connectionDegree == ConnectionDegree(connectionsText)
    ensures r.title.Some? <==> titleText.Some?
  {
    LinkedInProfile(
      id,
      TrimOr(nameText, "Unknown"),
      match titleText case None => None case Some(t) => Some(Trim(t)),
      ConnectionDegree(connectionsText))
  }

  /** The author name is never empty and never has whitespace at either
      end. */
  lemma AuthorNameIsTrimmed(id: string, nameText: Option<string>, titleText: Option<string>, connectionsText: Option<string>)
    ensures var name := AuthorInfo(id, nameText, titleText, connectionsText).name;
            name != "" && !IsWhitespace(name[0]) && !IsWhitespace(name[|name| - 1])
  {
    if nameText.Some? {
      TrimSpec(nameText.value);
    }
  }

  // ---------------------------------------------------------------------
  // analyzeContent
  // ---------------------------------------------------------------------

  /** What the selector queries return for one `.feed-shared-update-v2`
      element: the text of each queried element (None when absent), the
      comment texts, the `href` of every mailto link, the email-pattern
      matches of the rendered text and the matches of each phone pattern
      in the text content. */
  datatype PostView = PostView(
    nameText: Option<string>, titleText: Option<string>, connectionsText: Option<string>,
    contentText: Option<string>, timestampText: Option<string>, reactionsText: Option<string>,
    commentTexts: seq<string>, mailtoHrefs: seq<Option<string>>,
    emailMatches: seq<string>, phoneMatches: seq<seq<string>>)

  /** `crypto.randomUUID()` calls made for one post: its id, its author's
      id, then an id and an author id per comment. */
  function Draws(view: PostView): nat {
    2 + 2 * |view.commentTexts|
  }

  /** `getBasicComments`: one comment per text, by an "Anonymous" author,
      with zero reactions, each stamped with its own clock reading (the
      reading taken while comment k is built is indexed like its id draw). */
  function BasicComments(texts: seq<string>, uuid: nat -> string, base: nat, clock: nat -> int): (r: seq<PostComment>)
    ensures |r| == |texts|
    ensures forall k :: 0 <= k < |r| ==>
              r[k].author.name == "Anonymous" && r[k].reactions == Some(PostReactions(0, NoReactions))
  {
    seq(|texts|, k requires 0 <= k < |texts| =>
      PostComment(
        uuid(base + 2 * k),
        LinkedInProfile(uuid(base + 2 * k + 1), "Anonymous", None, None),
        Trim(texts[k]), clock(base + 2 * k), Some(PostReactions(0, NoReactions))))
  }

  /** The object literal built for one post element, the uuid draws
      starting at `base`. */
  function BuildPost(view: PostView, uuid: nat -> string, base: nat, clock: nat -> int, phones: seq<string>): LinkedInPost {
    LinkedInPost(
      uuid(base),
      AuthorInfo(uuid(base + 1), view.nameText, view.titleText, view.connectionsText),
      TrimOr(view.contentText, ""),
      Some(TrimOr(view.timestampText, "")),
      Some(BasicReactions(view.reactionsText)),
      Some(BasicComments(view.commentTexts, uuid, base + 2, clock)),
      ExtractEmails(view.mailtoHrefs, view.emailMatches),
      phones)
  }

  /** The object literal of `analyzeContent` for a post element whose
      uuid draws start at `base`. */
  function PostBuilder(uuid: nat -> string, clock: nat -> int): (PostView, nat) -> LinkedInPost {
    (v: PostView, base: nat) => BuildPost(v, uuid, base, clock, PhoneList(v.phoneMatches))
  }

  /** The posts `analyzeContent` returns, in document order. */
  function AnalyzedPosts(views: seq<PostView>, uuid: nat -> string, clock: nat -> int): (r: seq<LinkedInPost>)
    ensures |r| == |views|
  {
    MapWithOffset(views, Draws, PostBuilder(uuid, clock))
  }

  /** `analyzeContent`: sanitise the document in place, then map every post
      element to a `LinkedInPost`. */
  method AnalyzeContent(doc: ParsedDocument, views: seq<PostView>, uuid: nat -> string, clock: nat -> int)
    returns (posts: seq<LinkedInPost>)
    modifies doc
    ensures doc.nodes == StripAll(PruneAll(old(doc.nodes)))
    ensures posts == AnalyzedPosts(views, uuid, clock)
  {
    doc.RemoveNetworkElements();
    doc.RemoveEventHandlers();
    posts := [];
    var base := 0;
    for i := 0 to |views|
      invariant posts == MapWithOffset(views[..i], Draws, PostBuilder(uuid, clock))
      invariant base == OffsetOf(views[..i], Draws)
      invariant doc.nodes == StripAll(PruneAll(old(doc.nodes)))
    {
      var phones := ExtractPhoneNumbers(views[i].phoneMatches);
      MapWithOffsetSnoc(views, Draws, PostBuilder(uuid, clock), i);
      assert PostBuilder(uuid, clock)(views[i], base) == BuildPost(views[i], uuid, base, clock, phones);
      posts := posts + [BuildPost(views[i], uuid, base, clock, phones)];
      base := base + Draws(views[i]);
    }
    assert views[..|views|] == views;
  }

  /** Post k is built from view k, with the uuid draws that follow those of
      the posts before it. */
  lemma AnalyzedPostsEntries(views: seq<PostView>, uuid: nat -> string, clock: nat -> int)
    ensures forall k :: 0 <= k < |views| ==>
              AnalyzedPosts(views, uuid, clock)[k] ==
              BuildPost(views[k], uuid, OffsetOf(views[..k], Draws), clock, PhoneList(views[k].phoneMatches))
  {
    MapWithOffsetEntries(views, Draws, PostBuilder(uuid, clock));
  }

  /** Every post produced carries only valid addresses, distinct normalised
      phone numbers, a non-empty author name, one comment per comment text
      and no per-type reaction counts. */
  lemma AnalyzedPostsWellFormed(views: seq<PostView>, uuid: nat -> string, clock: nat -> int, k: nat)
    requires k < |views|
    ensures var p := AnalyzedPosts(views, uuid, clock)[k];
            && (forall x :: x in p.emails ==> IsValidEmail(x))
            && Distinct(p.phones) && (forall j :: 0 <= j < |p.phones| ==> IsNormalized(p.phones[j]))
            && p.author.name != ""
            && p.comments.Some? && |p.comments.value| == |views[k].commentTexts|
            && p.reactions.Some? && p.reactions.value.types == NoReactions
  {
    AnalyzedPostsEntries(views, uuid, clock);
    PhoneListContents(views[k].phoneMatches);
  }

  /** With an injective uuid source, no two posts share an id. */
  lemma PostIdsDistinct(views: seq<PostView>, uuid: nat -> string, clock: nat -> int)
    requires forall a: nat, b: nat :: a != b ==> uuid(a) != uuid(b)
    ensures forall i, j :: 0 <= i < j < |views| ==>
              AnalyzedPosts(views, uuid, clock)[i].id != AnalyzedPosts(views, uuid, clock)[j].id
  {
    AnalyzedPostsEntries(views, uuid, clock);
    forall i, j | 0 <= i < j < |views|
      ensures AnalyzedPosts(views, uuid, clock)[i].id != AnalyzedPosts(views, uuid, clock)[j].id
    {
      OffsetOfGrows(views, Draws, i, j);
    }
  }
}
