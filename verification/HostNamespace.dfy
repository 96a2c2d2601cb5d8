/** What the implicit own namespace of an accepted manifest reaches. The validator
    (v2/plugin/validate.go) keeps it out of the denied families; out of the host commands it
    keeps the one id "gateway". */
module HostNamespace {
  import opened Strings
  import opened Subjects
  import opened PatternLaws
  import opened BusGrants
  import opened Diagnostics
  import opened Permissions
  import opened PermissionLaws

  predicate PlainWord(t: string) {
    t != STAR && t != TAIL
  }

  // ----- the tokens of the patterns compared

  lemma TokensDot(a: string, b: string)
    requires '.' !in a
    ensures Tokens(a + ['.'] + b) == [a] + Tokens(b)
  {
    SplitFree(a, '.');
    SplitConcat(a, '.', b);
  }

  lemma TreeTokens(tree: string, id: string, p: string)
    requires '.' !in tree && p == tree + ['.'] + (id + ['.'] + TAIL)
    ensures Tokens(p) == [tree] + (Tokens(id) + [TAIL])
  {
    SplitFree(TAIL, '.');
    SplitConcat(id, '.', TAIL);
    TokensDot(tree, id + ['.'] + TAIL);
  }

  lemma SpellTree(dotted: string, tree: string, id: string, p: string)
    requires dotted == tree + ['.'] && p == dotted + id + ".>"
    ensures p == tree + ['.'] + (id + ['.'] + TAIL)
  {
  }

  lemma OwnSpelling(id: string, k: nat) returns (tree: string)
    requires id == TrimSpace(id) && id != "" && k < 5
    ensures |OwnPatterns(id)| == 5 && OwnPatterns(id)[k] == tree + ['.'] + (id + ['.'] + TAIL)
    ensures OwnTree(tree, k)
  {
    tree := TreeOf(k);
    var dotted := if k == 0 then "event." else if k == 1 then "tick." else if k == 2 then "_INBOX." else if k == 3 then "cmd." else "svc.";
    assert OwnPatterns(id)[k] == dotted + id + ".>";
    DottedTree(k, dotted);
    SpellTree(dotted, tree, id, OwnPatterns(id)[k]);
  }

  function TreeOf(k: nat): string {
    if k == 0 then "event" else if k == 1 then "tick" else if k == 2 then "_INBOX" else if k == 3 then "cmd" else "svc"
  }

  predicate OwnTree(tree: string, k: nat) {
    '.' !in tree && PlainWord(tree) && tree != "$SYS" && (tree == "cmd" <==> k == 3)
  }

  lemma DottedTree(k: nat, dotted: string)
    requires k < 5
    requires dotted ==
             if k == 0 then "event." else if k == 1 then "tick." else if k == 2 then "_INBOX." else if k == 3 then "cmd." else "svc."
    ensures dotted == TreeOf(k) + ['.'] && OwnTree(TreeOf(k), k)
  {
    var tree := TreeOf(k);
    assert tree[0] == 'e' || tree[0] == 't' || tree[0] == '_' || tree[0] == 'c' || tree[0] == 's';
  }

  /** An own pattern is a tree, the id's tokens and an open end; one tree is "cmd". */
  lemma OwnPatternTokens(id: string, k: nat) returns (tree: string)
    requires id == TrimSpace(id) && id != "" && k < 5
    ensures |OwnPatterns(id)| == 5 && Tokens(OwnPatterns(id)[k]) == [tree] + (Tokens(id) + [TAIL])
    ensures PlainWord(tree) && tree != "$SYS" && (tree == "cmd" <==> k == 3)
  {
    tree := OwnSpelling(id, k);
    TreeTokens(tree, id, OwnPatterns(id)[k]);
  }

  /** A string with two literal tokens in front. */
  lemma UnderTwo(first: string, second: string, rest: string, p: string)
    requires '.' !in first && '.' !in second && p == first + ['.'] + (second + ['.'] + rest)
    ensures Tokens(p) == [first] + ([second] + Tokens(rest))
  {
    TokensDot(second, rest);
    TokensDot(first, second + ['.'] + rest);
  }

  lemma HostCommandTokens()
    ensures Tokens(HOST_COMMANDS) == ["cmd", "gateway", TAIL]
  {
    SplitFree(TAIL, '.');
    UnderTwo("cmd", "gateway", TAIL, HOST_COMMANDS);
  }

  /** The tokens of a denied family: "$SYS" first, or "cmd" and a word that is not "gateway". */
  predicate DeniedShape(toks: seq<string>) {
    || (|toks| >= 1 && toks[0] == "$SYS")
    || (|toks| >= 2 && toks[0] == "cmd" && PlainWord(toks[1]) && toks[1] != "gateway")
  }

  /** A text that starts with the bytes of "cmd." and a byte of `second`. */
  predicate CmdText(p: string) {
    |p| >= 5 && p[0] == 'c' && p[1] == 'm' && p[2] == 'd' && p[3] == '.' && p[4] in "hpt"
  }

  lemma CmdTextTokens(p: string)
    requires CmdText(p)
    ensures Tokens(p)[0] == "cmd" && Tokens(p)[1..] == Tokens(p[4..])
    ensures |Tokens(p)| >= 2 && DeniedShape(Tokens(p))
  {
    var rest := p[4..];
    assert p == "cmd" + ['.'] + rest;
    TokensDot("cmd", rest);
    assert rest[0] == p[4] && rest == [rest[0]] + rest[1..];
    SplitCons(rest[0], rest[1..], '.');
    assert Tokens(rest)[0][0] == p[4];
  }

  lemma SysText(p: string)
    requires |p| >= 5 && p[0] == '$' && p[1] == 'S' && p[2] == 'Y' && p[3] == 'S' && p[4] == '.'
    ensures DeniedShape(Tokens(p))
  {
    assert p == "$SYS" + ['.'] + p[5..];
    TokensDot("$SYS", p[5..]);
  }

  lemma FirstFamilies()
    ensures forall k :: 1 <= k < 5 ==> CmdText(INELIGIBLE[k])
  {
  }

  lemma LastFamilies()
    ensures forall k :: 5 <= k < |INELIGIBLE| ==> CmdText(INELIGIBLE[k])
  {
  }

  lemma DeniedFamilies(denied: seq<string>)
    requires denied == INELIGIBLE
    ensures forall d :: d in denied ==> DeniedShape(Tokens(d))
  {
    SysText(INELIGIBLE[0]);
    FirstFamilies();
    LastFamilies();
    forall k | 0 <= k < |denied|
      ensures DeniedShape(Tokens(denied[k]))
    {
      if k > 0 {
        CmdTextTokens(denied[k]);
      }
    }
  }

  // ----- when such patterns meet

  /** Whether a first id token leads to `name`. */
  predicate LeadsTo(first: string, name: string) {
    first == name || first == STAR || first == TAIL
  }

  lemma {:induction false} OverlapCons(x: string, a: seq<string>, y: string, b: seq<string>)
    ensures OverlapsTokens([x] + a, [y] + b) <==>
            x == TAIL || y == TAIL || ((x == STAR || y == STAR || x == y) && OverlapsTokens(a, b))
  {
    assert ([x] + a)[1..] == a && ([y] + b)[1..] == b;
  }

  lemma {:induction false} HeadsAgree(x: string, a: seq<string>, y: string, b: seq<string>)
    requires PlainWord(x) && OverlapsTokens([x] + a, [y] + b)
    ensures LeadsTo(y, x) && (PlainWord(y) ==> OverlapsTokens(a, b))
  {
    OverlapCons(x, a, y, b);
  }

  /** Where two lists can meet that begin with words. */
  lemma {:induction false} TwoHeads(tree: string, id: string, open: seq<string>, first: string, second: string, rest: seq<string>)
    requires PlainWord(tree) && PlainWord(first) && PlainWord(second)
    requires OverlapsTokens([first] + ([second] + rest), [tree] + ([id] + open))
    ensures tree == first && LeadsTo(id, second)
  {
    HeadsAgree(first, [second] + rest, tree, [id] + open);
    HeadsAgree(second, rest, id, open);
  }

  lemma HeadOff(t: seq<string>)
    requires t != []
    ensures t + [TAIL] == [t[0]] + (t[1..] + [TAIL])
  {
  }

  /** Where an own pattern can meet a family with two words in front. */
  lemma {:induction false} TreeMeets(tree: string, t: seq<string>, first: string, second: string, rest: seq<string>)
    requires PlainWord(tree) && t != [] && PlainWord(first) && PlainWord(second)
    requires OverlapsTokens([first] + ([second] + rest), [tree] + (t + [TAIL]))
    ensures tree == first && LeadsTo(t[0], second)
  {
    HeadOff(t);
    TwoHeads(tree, t[0], t[1..] + [TAIL], first, second, rest);
  }

  /** And where it does. */
  lemma {:induction false} TreeReaches(t: seq<string>, first: string, second: string, rest: seq<string>)
    requires t != [] && PlainWord(first) && PlainWord(second)
    requires t[0] == TAIL || (LeadsTo(t[0], second) && rest != [] && (|t| == 1 || rest[0] == TAIL))
    ensures OverlapsTokens([first] + ([second] + rest), [first] + (t + [TAIL]))
  {
    var open := t[1..] + [TAIL];
    HeadOff(t);
    OverlapCons(first, [second] + rest, first, t + [TAIL]);
    OverlapCons(second, rest, t[0], open);
    if t[0] != TAIL {
      EndsOverlap(rest, open);
    }
  }

  lemma EndsOverlap(a: seq<string>, b: seq<string>)
    requires a != [] && b != [] && (a[0] == TAIL || b[0] == TAIL)
    ensures OverlapsTokens(a, b)
  {
  }

  lemma FirstDiffers(a: seq<string>, b: seq<string>)
    requires a != [] && b != [] && PlainWord(a[0]) && PlainWord(b[0]) && a[0] != b[0]
    ensures !OverlapsTokens(a, b)
  {
  }

  /** The id's own command tree reaches into the host commands. */
  predicate UnderGateway(t: seq<string>) {
    |t| >= 2 && (t[0] == "gateway" || t[0] == STAR)
  }

  /** `hosts` stands for the host commands' pattern. */
  lemma OwnMeetsHosts(id: string, hosts: string, k: nat)
    requires id == TrimSpace(id) && id != "" && k < 5
    requires Tokens(hosts) == ["cmd", "gateway", TAIL]
    ensures |OwnPatterns(id)| == 5
    ensures Shares(hosts, OwnPatterns(id)[k]) <==> k == 3 && LeadsTo(Tokens(id)[0], "gateway")
  {
    var tree := OwnPatternTokens(id, k);
    OverlapTotal(Tokens(hosts), Tokens(OwnPatterns(id)[k]));
    assert ["cmd"] + (["gateway"] + [TAIL]) == ["cmd", "gateway", TAIL];
    if Shares(hosts, OwnPatterns(id)[k]) {
      TreeMeets(tree, Tokens(id), "cmd", "gateway", [TAIL]);
    }
    if k == 3 && LeadsTo(Tokens(id)[0], "gateway") {
      TreeReaches(Tokens(id), "cmd", "gateway", [TAIL]);
    }
  }

  lemma MeetsHostCommands(id: string, hosts: string)
    requires id == TrimSpace(id) && id != "" && Tokens(hosts) == ["cmd", "gateway", TAIL]
    ensures (exists p :: p in OwnPatterns(id) && Shares(hosts, p)) <==> LeadsTo(Tokens(id)[0], "gateway")
  {
    var tree := OwnPatternTokens(id, 3);
    forall k: nat | k < 5
      ensures Shares(hosts, OwnPatterns(id)[k]) <==> k == 3 && LeadsTo(Tokens(id)[0], "gateway")
    {
      OwnMeetsHosts(id, hosts, k);
    }
    assert OwnPatterns(id)[3] in OwnPatterns(id);
  }

  /** An id that is one "*" or starts with ">" meets a denied family under "cmd". */
  lemma MeetsDenied(id: string, d: string)
    requires id == TrimSpace(id) && id != ""
    requires Tokens(id)[0] == TAIL || (|Tokens(id)| == 1 && Tokens(id)[0] == STAR)
    requires SecondWord(Tokens(d))
    ensures exists p :: p in OwnPatterns(id) && Shares(d, p)
  {
    var tree := OwnPatternTokens(id, 3);
    var p := OwnPatterns(id)[3];
    var toks := Tokens(d);
    assert toks == [toks[0]] + ([toks[1]] + toks[2..]);
    TreeReaches(Tokens(id), toks[0], toks[1], toks[2..]);
    OverlapTotal(Tokens(d), Tokens(p));
    assert p in OwnPatterns(id) && Shares(d, p);
  }

  predicate SecondWord(toks: seq<string>) {
    |toks| >= 3 && toks[0] == "cmd" && PlainWord(toks[1])
  }

  lemma MoreTokens(s: string)
    requires '.' in s
    ensures |Tokens(s)| >= 2
  {
    JoinSplit(s, '.');
  }

  lemma OneDenied() returns (d: string)
    ensures d in INELIGIBLE && SecondWord(Tokens(d))
  {
    d := INELIGIBLE[1];
    CmdTextTokens(d);
    assert d[4..][4] == '.';
    MoreTokens(d[4..]);
    assert |Tokens(d)| == |Tokens(d)[1..]| + 1;
    assert Tokens(d)[0] != "$SYS";
  }

  lemma OneToken(id: string)
    requires |Tokens(id)| == 1
    ensures Tokens(id) == [id]
  {
    JoinSplit(id, '.');
  }

  /** The own namespace meets none of the denied families. */
  ghost predicate Apart(own: seq<string>, denied: seq<string>) {
    forall g, d :: g in own && d in denied ==> !Shares(d, g)
  }

  /** What an id that keeps apart from a denied family under "cmd" is not. */
  lemma ApartId(id: string, denied: seq<string>, d: string)
    requires id == TrimSpace(id) && id != "" && Apart(OwnPatterns(id), denied) && d in denied && SecondWord(Tokens(d))
    ensures Tokens(id)[0] != TAIL && Tokens(id) != [STAR]
  {
    if Tokens(id)[0] == TAIL || Tokens(id) == [STAR] {
      MeetsDenied(id, d);
    }
  }

  lemma OwnReachesHosts(id: string, hosts: string, denied: seq<string>, d: string)
    requires id == TrimSpace(id) && id != "gateway" && Tokens(hosts) == ["cmd", "gateway", TAIL]
    requires Apart(OwnPatterns(id), denied) && d in denied && SecondWord(Tokens(d))
    ensures (exists p :: p in OwnPatterns(id) && Shares(hosts, p)) <==> UnderGateway(Tokens(id))
  {
    if id != "" {
      MeetsHostCommands(id, hosts);
      ApartId(id, denied, d);
      if |Tokens(id)| == 1 {
        OneToken(id);
      }
    }
  }

  lemma AcceptedIsApart(m: Manifest)
    requires SubjectFindings(m) == []
    ensures Apart(OwnPatterns(TrimSpace(m.id)), INELIGIBLE) && TrimSpace(m.id) != "gateway"
  {
    NothingReportedMeaning(m);
    TrimIdempotent(m.id);
  }

  /** Without findings, some subject of the own namespace is a host command exactly when the
      id has further tokens after "gateway" or "*". */
  lemma OwnReachesHostCommands(m: Manifest)
    requires SubjectFindings(m) == []
    ensures (exists p :: p in OwnPatterns(m.id) && Shares(HOST_COMMANDS, p)) <==> UnderGateway(Tokens(TrimSpace(m.id)))
  {
    AcceptedIsApart(m);
    TrimIdempotent(m.id);
    HostCommandTokens();
    SamePatterns(m.id, TrimSpace(m.id));
    var d := OneDenied();
    OwnReachesHosts(TrimSpace(m.id), HOST_COMMANDS, INELIGIBLE, d);
  }

  lemma SamePatterns(raw: string, id: string)
    requires id == TrimSpace(raw) && id == TrimSpace(id)
    ensures OwnPatterns(raw) == OwnPatterns(id)
  {
  }

  // ----- such ids are accepted

  lemma GatewayMeetsNoDenied(id: string, p: string, d: string)
    requires id == TrimSpace(id) && id != "" && Tokens(id)[0] == "gateway"
    requires p in OwnPatterns(id) && DeniedShape(Tokens(d))
    ensures !Shares(d, p)
  {
    var some := OwnPatternTokens(id, 0);
    var k: nat :| k < 5 && OwnPatterns(id)[k] == p;
    var tree := OwnPatternTokens(id, k);
    OverlapTotal(Tokens(d), Tokens(p));
    if Tokens(d)[0] == "$SYS" {
      FirstDiffers(Tokens(d), Tokens(p));
    } else {
      var toks := Tokens(d);
      assert toks == [toks[0]] + ([toks[1]] + toks[2..]);
      if Shares(d, p) {
        TreeMeets(tree, Tokens(id), toks[0], toks[1], toks[2..]);
      }
    }
  }

  lemma CoverCons(x: string, p: seq<string>, q: seq<string>)
    requires PlainWord(x) && CoversTokens(p, q)
    ensures CoversTokens([x] + p, [x] + q)
  {
    assert ([x] + p)[1..] == p && ([x] + q)[1..] == q;
  }

  lemma HostsCover(id: string, hosts: string, k: nat)
    requires id == TrimSpace(id) && id != "" && Tokens(id)[0] == "gateway" && k == 3
    requires Tokens(hosts) == ["cmd", "gateway", TAIL]
    ensures |OwnPatterns(id)| == 5 && CoveredBy(hosts, OwnPatterns(id)[k])
  {
    var tree := OwnPatternTokens(id, k);
    var t, open := Tokens(id), Tokens(id)[1..] + [TAIL];
    assert t + [TAIL] == ["gateway"] + open;
    CoverCons("gateway", [TAIL], open);
    CoverCons("cmd", ["gateway"] + [TAIL], ["gateway"] + open);
    assert ["cmd"] + (["gateway"] + [TAIL]) == ["cmd", "gateway", TAIL];
  }

  lemma GatewayIsApart(id: string, denied: seq<string>)
    requires id == TrimSpace(id) && id != "" && Tokens(id)[0] == "gateway"
    requires forall d :: d in denied ==> DeniedShape(Tokens(d))
    ensures Apart(OwnPatterns(id), denied)
  {
    forall g, d | g in OwnPatterns(id) && d in denied
      ensures !Shares(d, g)
    {
      GatewayMeetsNoDenied(id, g, d);
    }
  }

  /** A manifest that declares nothing is accepted for its id alone. */
  lemma ApartIsAccepted(m: Manifest)
    requires m.publish == [] && m.subscribe == [] && m.request == []
    requires Apart(OwnPatterns(TrimSpace(m.id)), INELIGIBLE) && TrimSpace(m.id) != "gateway"
    ensures SubjectFindings(m) == []
  {
    NothingReportedMeaning(m);
    NothingDeclared(RulesFor(m.id), m);
  }

  lemma NothingDeclared(r: Rules, m: Manifest)
    requires m.publish == [] && m.subscribe == [] && m.request == []
    ensures AcceptedList(r, Publish, m.publish) && AcceptedList(r, Subscribe, m.subscribe) && AcceptedList(r, Request, m.request)
  {
  }

  lemma NotOneToken(id: string)
    requires |Tokens(id)| >= 2
    ensures id != "gateway" && id != ""
  {
    SplitFree("gateway", '.');
  }

  /** A manifest that declares nothing, with an id under "gateway": nothing is reported, and
      one pattern of its own namespace lies inside the host commands. */
  lemma DottedGatewayAccepted(m: Manifest)
    requires m.publish == [] && m.subscribe == [] && m.request == []
    requires |Tokens(TrimSpace(m.id))| >= 2 && Tokens(TrimSpace(m.id))[0] == "gateway"
    ensures SubjectFindings(m) == []
    ensures exists p :: p in OwnPatterns(m.id) && CoveredBy(HOST_COMMANDS, p)
  {
    var id := TrimSpace(m.id);
    TrimIdempotent(m.id);
    NotOneToken(id);
    HostCommandTokens();
    DeniedFamilies(INELIGIBLE);
    GatewayIsApart(id, INELIGIBLE);
    ApartIsAccepted(m);
    HostsCover(id, HOST_COMMANDS, 3);
    SamePatterns(m.id, id);
    assert OwnPatterns(m.id)[3] in OwnPatterns(m.id);
  }

  // ----- one such id

  lemma NoWideSpace(b: string)
    requires b != "" && (b[0] <= '~' || b[|b| - 1] <= '~')
    ensures !IsWideSpace(b)
  {
    assert |b| == 3 ==> b[..2][0] == b[0];
  }

  lemma NoLeadingSpace(s: string)
    requires s != "" && '!' <= s[0] <= '~'
    ensures LeadingSpace(s) == 0
  {
    if |s| >= 2 {
      NoWideSpace(s[..2]);
    }
    if |s| >= 3 {
      NoWideSpace(s[..3]);
    }
  }

  lemma NoTrailingSpace(s: string)
    requires s != "" && '!' <= s[|s| - 1] <= '~'
    ensures TrailingSpace(s) == 0
  {
    if |s| >= 2 {
      NoWideSpace(s[|s| - 2..]);
    }
    if |s| >= 3 {
      NoWideSpace(s[|s| - 3..]);
    }
  }

  lemma NothingToTrim(s: string)
    requires LeadingSpace(s) == 0 && TrailingSpace(s) == 0
    ensures TrimSpace(s) == s
  {
  }

  /** A text that begins and ends with a printable byte is trimmed already. */
  lemma PrintableEnds(s: string)
    requires s != "" && '!' <= s[0] <= '~' && '!' <= s[|s| - 1] <= '~'
    ensures TrimSpace(s) == s
  {
    NoLeadingSpace(s);
    NoTrailingSpace(s);
    NothingToTrim(s);
  }

  /** No rule reports an id under "gateway", and its own namespace holds host commands. */
  lemma UnderGatewayAccepted(m: Manifest, gateway: string, rest: string)
    requires m.publish == [] && m.subscribe == [] && m.request == []
    requires gateway == "gateway" && m.id == gateway + ['.'] + rest && rest != "" && '!' <= rest[|rest| - 1] <= '~'
    ensures SubjectFindings(m) == []
    ensures exists p :: p in OwnPatterns(m.id) && CoveredBy(HOST_COMMANDS, p)
  {
    assert gateway[0] == 'g';
    PrintableEnds(m.id);
    TokensDot(gateway, rest);
    DottedGatewayAccepted(m);
  }

  lemma GatewayV1(m: Manifest)
    requires m == Manifest("gateway.v1", [], [], [])
    ensures SubjectFindings(m) == [] && exists p :: p in OwnPatterns(m.id) && CoveredBy(HOST_COMMANDS, p)
  {
    var rest := "v1";
    assert m.id == "gateway" + ['.'] + rest && rest[1] == '1';
    UnderGatewayAccepted(m, "gateway", rest);
  }
}
