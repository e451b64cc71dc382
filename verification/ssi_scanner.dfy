/**
 Server-side includes in one shot: which parts of a file are tags, and the text that is served.
 The scanner follows the states of `http_send_data_ssi` in httpserver/httpd.cpp; the lemmas say
 which tags it recognises without mentioning its states.
 */
module SsiScanner {
  import opened Words

  const MAX_NAME_LEN: nat := 8
  const MAX_INSERT_LEN: nat := 192

  /** `http_ssi_tag_desc`. */
  datatype TagKind = Html | Script

  function LeadIn(kind: TagKind): (r: string)
    ensures |r| > 0
  {
    match kind
    case Html => "<!--#"
    case Script => "/*#"
  }

  function LeadOut(kind: TagKind): (r: string)
    ensures |r| > 1
  {
    match kind
    case Html => "-->"
    case Script => "*/"
  }

  predicate IsSpace(c: char) {
    c == ' ' || c == '\t' || c == '\n' || c == '\r'
  }

  /** Where the scanner is: outside tags, in a lead-in, in a name, or in a lead-out. */
  datatype Scan =
    | Idle
    | InLeadIn(kind: TagKind, index: nat)
    | InName(kind: TagKind, name: string)
    | InLeadOut(kind: TagKind, name: string, index: nat)

  ghost predicate ValidScan(s: Scan) {
    match s
    case Idle => true
    case InLeadIn(kind, i) => 1 <= i <= |LeadIn(kind)|
    case InName(kind, name) => |name| <= MAX_NAME_LEN
    case InLeadOut(kind, name, i) => 1 <= |name| <= MAX_NAME_LEN && i < |LeadOut(kind)|
  }

  /** The next state, and the name of a tag that ends with this character. */
  function ScanChar(s: Scan, c: char): (r: (Scan, Option<string>))
    requires ValidScan(s)
    ensures ValidScan(r.0) && (r.1.Some? ==> r.0 == Idle)
  {
    match s
    case Idle =>
      (if c == '<' then InLeadIn(Html, 1) else if c == '/' then InLeadIn(Script, 1) else Idle, None)
    case InLeadIn(kind, i) =>
      if i == |LeadIn(kind)| then (ScanName(kind, "", c), None)
      else if c == LeadIn(kind)[i] then (InLeadIn(kind, i + 1), None)
      else (Idle, None)
    case InName(kind, name) => (ScanName(kind, name, c), None)
    case InLeadOut(kind, name, i) =>
      if i == 0 && IsSpace(c) then (s, None)
      else if c == LeadOut(kind)[i] then
        if i + 1 == |LeadOut(kind)| then (Idle, Some(name)) else (InLeadOut(kind, name, i + 1), None)
      else (Idle, None)
  }

  function ScanName(kind: TagKind, name: string, c: char): (r: Scan)
    requires |name| <= MAX_NAME_LEN
    ensures ValidScan(r)
  {
    if name == "" && IsSpace(c) then InName(kind, name)
    else if c == LeadOut(kind)[0] || IsSpace(c) then
      if name == "" then Idle else InLeadOut(kind, name, if c == LeadOut(kind)[0] then 1 else 0)
    else if |name| < MAX_NAME_LEN then InName(kind, name + [c])
    else Idle
  }

  // ----- Inserts -----

  /** The registered tags and their handler: what it writes for tag number i at its k-th call. */
  datatype Site = Site(installed: bool, tags: seq<string>, handler: (nat, nat) -> string)

  ghost predicate ValidSite(site: Site) {
    forall i: nat, k: nat :: |site.handler(i, k)| <= MAX_INSERT_LEN
  }

  /** A character buffer read as a C string. */
  function CString(s: string): (r: string)
    ensures r <= s && '\0' !in r
  {
    if s == "" || s[0] == '\0' then "" else [s[0]] + CString(s[1..])
  }

  /** The first registered tag with this name, at or after i; |tags| when there is none. */
  function FindTag(tags: seq<string>, name: string, i: nat): (r: nat)
    requires i <= |tags|
    ensures i <= r <= |tags| && (r < |tags| ==> tags[r] == name)
    ensures forall j :: i <= j < r ==> tags[j] != name
    decreases |tags| - i
  {
    if i == |tags| || tags[i] == name then i else FindTag(tags, name, i + 1)
  }

  function UnknownText(name: string): string {
    "<b>***UNKNOWN TAG " + name + "***</b>"
  }

  /** The text that follows the k-th tag recognised. */
  function Insert(site: Site, name: string, k: nat): (r: string) {
    var tag := FindTag(site.tags, CString(name), 0);
    if site.installed && tag < |site.tags| then site.handler(tag, k) else UnknownText(CString(name))
  }

  /** The text served for `text` when the scanner starts in state s and k tags came before. */
  function Expand(site: Site, s: Scan, text: string, k: nat): string
    requires ValidScan(s)
    decreases |text|
  {
    if text == "" then ""
    else
      var (next, tag) := ScanChar(s, text[0]);
      if tag.Some? then [text[0]] + Insert(site, tag.value, k) + Expand(site, next, text[1..], k + 1)
      else [text[0]] + Expand(site, next, text[1..], k)
  }

  /** One character moves from the unscanned text to the scanned text. */
  lemma ExpandStep(site: Site, s: Scan, data: string, file: nat, parsed: nat, k: nat)
    requires ValidScan(s) && file <= parsed < |data|
    ensures var (next, tag) := ScanChar(s, data[parsed]);
            data[file..parsed] + Expand(site, s, data[parsed..], k)
            == data[file..parsed + 1]
               + if tag.Some? then Insert(site, tag.value, k) + Expand(site, next, data[parsed + 1..], k + 1)
                 else Expand(site, next, data[parsed + 1..], k)
  {
    hide ScanChar, Insert, Expand;
    var rest, front, c := data[parsed..], data[file..parsed], data[parsed];
    ExpandOne(site, s, rest, k);
    assert rest[0] == c && rest[1..] == data[parsed + 1..];
    assert data[file..parsed + 1] == front + [c];
    var (next, tag) := ScanChar(s, c);
    var after := if tag.Some? then Insert(site, tag.value, k) + Expand(site, next, rest[1..], k + 1)
                 else Expand(site, next, rest[1..], k);
    assert front + ([c] + after) == (front + [c]) + after;
  }

  lemma ExpandOne(site: Site, s: Scan, text: string, k: nat)
    requires ValidScan(s) && text != ""
    ensures var (next, tag) := ScanChar(s, text[0]);
            Expand(site, s, text, k)
            == [text[0]] + if tag.Some? then Insert(site, tag.value, k) + Expand(site, next, text[1..], k + 1)
                           else Expand(site, next, text[1..], k)
  {
    hide ScanChar, Insert;
    var (next, tag) := ScanChar(s, text[0]);
    if tag.Some? {
      var i, e := Insert(site, tag.value, k), Expand(site, next, text[1..], k + 1);
      assert [text[0]] + i + e == [text[0]] + (i + e);
    }
  }

  /** A complete lead-in is the start of a name. */
  lemma LeadInEnds(site: Site, kind: TagKind, text: string, k: nat)
    ensures Expand(site, InLeadIn(kind, |LeadIn(kind)|), text, k) == Expand(site, InName(kind, ""), text, k)
  {}

  // ----- Which tags are recognised -----

  ghost predicate AllSpace(s: string) {
    forall i :: 0 <= i < |s| ==> IsSpace(s[i])
  }

  ghost predicate ValidName(kind: TagKind, name: string) {
    && 1 <= |name| <= MAX_NAME_LEN
    && forall i :: 0 <= i < |name| ==> !IsSpace(name[i]) && name[i] != LeadOut(kind)[0]
  }

  /** A tag as the documentation describes it. */
  function Tag(kind: TagKind, before: string, name: string, after: string): string {
    LeadIn(kind) + before + name + after + LeadOut(kind)
  }

  /** The two forms of a tag, and the white space they permit. */
  lemma TagIsDocumented(before: string, name: string, after: string)
    ensures Tag(Html, before, name, after) == "<!--#" + before + name + after + "-->"
    ensures Tag(Script, before, name, after) == "/*#" + before + name + after + "*/"
    ensures AllSpace(before) <==> forall i :: 0 <= i < |before| ==> before[i] in {' ', '\t', '\n', '\r'}
  {}

  ghost predicate ValidTag(kind: TagKind, before: string, name: string, after: string) {
    AllSpace(before) && ValidName(kind, name) && AllSpace(after)
  }

  /** The state after scanning a text from its start. */
  function After(text: string): (s: Scan)
    ensures ValidScan(s)
  {
    if text == "" then Idle else ScanChar(After(text[..|text| - 1]), text[|text| - 1]).0
  }

  /** The tag that ends with the last character of a text, if any. */
  function Ends(text: string): Option<string> {
    if text == "" then None else ScanChar(After(text[..|text| - 1]), text[|text| - 1]).1
  }

  lemma AfterAppend(text: string, c: char)
    ensures After(text + [c]) == ScanChar(After(text), c).0
    ensures Ends(text + [c]) == ScanChar(After(text), c).1
  {
    assert (text + [c])[..|text|] == text;
  }

  /** What each state says about the text before it: the partial tag it is in, and that the
      scanner was idle where that tag began. */
  ghost predicate Explained(text: string, s: Scan, start: string, before: string, after: string) {
    match s
    case Idle => true
    case InLeadIn(kind, i) => i <= |LeadIn(kind)| && After(start) == Idle && text == start + LeadIn(kind)[..i]
    case InName(kind, name) =>
      && After(start) == Idle && AllSpace(before)
      && (name != "" ==> ValidName(kind, name))
      && text == start + LeadIn(kind) + before + name
    case InLeadOut(kind, name, i) =>
      && After(start) == Idle && ValidTag(kind, before, name, after) && i < |LeadOut(kind)|
      && text == start + LeadIn(kind) + before + name + after + LeadOut(kind)[..i]
  }

  lemma {:induction false} Explain(text: string) returns (start: string, before: string, after: string)
    ensures Explained(text, After(text), start, before, after)
  {
    start, before, after := text, "", "";
    if text != "" {
      var front, c := text[..|text| - 1], text[|text| - 1];
      var s := After(front);
      assert text == front + [c];
      start, before, after := Explain(front);
      match s {
        case Idle => start := front;
        case InLeadIn(kind, i) => before, after := ExplainLeadIn(front, c, kind, i, start);
        case InName(kind, name) => before, after := ExplainName(front, c, kind, name, start, before);
        case InLeadOut(kind, name, i) => after := ExplainLeadOut(front, c, kind, name, i, start, before, after);
      }
    }
  }

  lemma ExplainLeadIn(front: string, c: char, kind: TagKind, i: nat, start: string)
    returns (before: string, after: string)
    requires ValidScan(InLeadIn(kind, i)) && Explained(front, InLeadIn(kind, i), start, "", "")
    ensures Explained(front + [c], ScanChar(InLeadIn(kind, i), c).0, start, before, after)
  {
    before, after := "", "";
    if i == |LeadIn(kind)| {
      assert LeadIn(kind)[..i] == LeadIn(kind);
      if IsSpace(c) {
        before := [c];
        assert front + [c] == start + LeadIn(kind) + before + "";
      } else {
        assert front + [c] == start + LeadIn(kind) + before + [c];
        assert "" + [c] == [c];
      }
    } else if c == LeadIn(kind)[i] {
      assert LeadIn(kind)[..i] + [c] == LeadIn(kind)[..i + 1];
      assert front + [c] == start + LeadIn(kind)[..i + 1];
    }
  }

  lemma ExplainName(front: string, c: char, kind: TagKind, name: string, start: string, before0: string)
    returns (before: string, after: string)
    requires ValidScan(InName(kind, name)) && Explained(front, InName(kind, name), start, before0, "")
    ensures Explained(front + [c], ScanChar(InName(kind, name), c).0, start, before, after)
  {
    before, after := before0, "";
    var l := start + LeadIn(kind);
    if name == "" && IsSpace(c) {
      before := before0 + [c];
      assert front + [c] == l + before + name;
    } else if c == LeadOut(kind)[0] || IsSpace(c) {
      if c == LeadOut(kind)[0] {
        assert LeadOut(kind)[..1] == [c];
        assert front + [c] == l + before + name + after + LeadOut(kind)[..1];
      } else {
        after := [c];
        assert front + [c] == l + before + name + after + LeadOut(kind)[..0];
      }
    } else {
      assert front + [c] == l + before + (name + [c]);
    }
  }

  lemma ExplainLeadOut(front: string, c: char, kind: TagKind, name: string, i: nat,
                       start: string, before: string, after0: string)
    returns (after: string)
    requires ValidScan(InLeadOut(kind, name, i)) && Explained(front, InLeadOut(kind, name, i), start, before, after0)
    ensures Explained(front + [c], ScanChar(InLeadOut(kind, name, i), c).0, start, before, after)
    ensures ScanChar(InLeadOut(kind, name, i), c).1.Some?
            ==> ValidTag(kind, before, name, after) && front + [c] == start + Tag(kind, before, name, after)
  {
    hide After, LeadIn, LeadOut, AllSpace, ValidName;
    after := after0;
    var l := start + LeadIn(kind) + before + name;
    var o := LeadOut(kind)[..i];
    assert front == (l + after0) + o;
    if i == 0 && IsSpace(c) {
      after := after0 + [c];
      AppendOne(l, after0, c);
      SpaceAppend(after0, c);
      assert o == "" && (l + after0) + o == l + after0 && (l + after) + o == l + after;
    } else if c == LeadOut(kind)[i] {
      AppendOne(l + after0, o, c);
      assert o + [c] == LeadOut(kind)[..i + 1];
      if i + 1 == |LeadOut(kind)| {
        assert LeadOut(kind)[..i + 1] == LeadOut(kind);
        TagSplits(start, kind, before, name, after);
      }
    }
  }

  lemma SpaceAppend(space: string, c: char)
    ensures AllSpace(space + [c]) <==> AllSpace(space) && IsSpace(c)
  {
    if AllSpace(space + [c]) {
      assert (space + [c])[|space|] == c && forall i :: 0 <= i < |space| ==> (space + [c])[i] == space[i];
    }
  }

  // ----- Every tag that starts while the scanner is idle is recognised -----

  lemma {:induction false} LeadInRun(start: string, kind: TagKind, i: nat)
    requires After(start) == Idle && 1 <= i <= |LeadIn(kind)|
    ensures After(start + LeadIn(kind)[..i]) == InLeadIn(kind, i)
  {
    hide After, Ends;
    var l, c := LeadIn(kind)[..i - 1], LeadIn(kind)[i - 1];
    assert LeadIn(kind)[..i] == l + [c] && start + LeadIn(kind)[..i] == (start + l) + [c];
    AfterAppend(start + l, c);
    if i > 1 {
      LeadInRun(start, kind, i - 1);
    } else {
      assert start + l == start;
    }
  }

  /** In a name with nothing read yet, whether or not space was skipped. */
  ghost predicate AtName(s: Scan, kind: TagKind) {
    s == InName(kind, "") || s == InLeadIn(kind, |LeadIn(kind)|)
  }

  lemma {:induction false} SpaceRun(text: string, kind: TagKind, space: string)
    requires AtName(After(text), kind) && AllSpace(space)
    ensures AtName(After(text + space), kind)
  {
    hide After, Ends;
    if space == "" {
      assert text + space == text;
    } else {
      var front, c := space[..|space| - 1], space[|space| - 1];
      assert text + space == (text + front) + [c];
      SpaceRun(text, kind, front);
      AfterAppend(text + front, c);
    }
  }

  lemma {:induction false} NameRun(text: string, kind: TagKind, name: string)
    requires AtName(After(text), kind) && ValidName(kind, name)
    ensures After(text + name) == InName(kind, name)
  {
    hide After, Ends;
    var front, c := name[..|name| - 1], name[|name| - 1];
    assert text + name == (text + front) + [c] && name == front + [c];
    if front == "" {
      assert text + front == text;
    } else {
      NameRun(text, kind, front);
    }
    AfterAppend(text + front, c);
  }

  lemma {:induction false} TrailingSpaceRun(text: string, kind: TagKind, name: string, space: string)
    requires After(text) == InName(kind, name) && ValidName(kind, name) && AllSpace(space) && space != ""
    ensures After(text + space) == InLeadOut(kind, name, 0)
  {
    hide After, Ends;
    var front, c := space[..|space| - 1], space[|space| - 1];
    assert text + space == (text + front) + [c];
    if front == "" {
      assert text + front == text;
    } else {
      TrailingSpaceRun(text, kind, name, front);
    }
    AfterAppend(text + front, c);
  }

  /** After the name and its trailing space, and i characters of the lead-out. */
  lemma {:induction false} LeadOutRun(text: string, kind: TagKind, name: string, i: nat)
    requires ValidName(kind, name) && i <= |LeadOut(kind)|
    requires After(text) == InName(kind, name) || After(text) == InLeadOut(kind, name, 0)
    ensures 1 <= i < |LeadOut(kind)| ==> After(text + LeadOut(kind)[..i]) == InLeadOut(kind, name, i)
    ensures i == |LeadOut(kind)| ==> After(text + LeadOut(kind)) == Idle && Ends(text + LeadOut(kind)) == Some(name)
  {
    hide After, Ends;
    if i > 0 {
      var o, c := LeadOut(kind)[..i - 1], LeadOut(kind)[i - 1];
      LeadOutRun(text, kind, name, i - 1);
      assert LeadOut(kind)[..i] == o + [c] && text + LeadOut(kind)[..i] == (text + o) + [c];
      if i == 1 {
        assert text + o == text;
      }
      AfterAppend(text + o, c);
      if i == |LeadOut(kind)| {
        assert LeadOut(kind)[..i] == LeadOut(kind);
      }
    }
  }

  /** A tag with any permitted space, in a text that leaves the scanner idle, is recognised at its last
      character, and leaves it idle. */
  lemma IdleTagIsRecognised(start: string, kind: TagKind, before: string, name: string, after: string)
    requires After(start) == Idle && ValidTag(kind, before, name, after)
    ensures Ends(start + Tag(kind, before, name, after)) == Some(name)
    ensures After(start + Tag(kind, before, name, after)) == Idle
  {
    hide After, Ends;
    var n := start + LeadIn(kind) + before + name;
    UpToName(start, kind, before, name);
    if after == "" {
      assert n + after == n;
    } else {
      TrailingSpaceRun(n, kind, name, after);
    }
    LeadOutRun(n + after, kind, name, |LeadOut(kind)|);
    TagSplits(start, kind, before, name, after);
  }

  lemma UpToName(start: string, kind: TagKind, before: string, name: string)
    requires After(start) == Idle && AllSpace(before) && ValidName(kind, name)
    ensures After(start + LeadIn(kind) + before + name) == InName(kind, name)
  {
    hide After, Ends;
    assert LeadIn(kind)[..|LeadIn(kind)|] == LeadIn(kind);
    LeadInRun(start, kind, |LeadIn(kind)|);
    SpaceRun(start + LeadIn(kind), kind, before);
    NameRun(start + LeadIn(kind) + before, kind, name);
  }

  lemma TagSplits(start: string, kind: TagKind, before: string, name: string, after: string)
    ensures start + LeadIn(kind) + before + name + after + LeadOut(kind) == start + Tag(kind, before, name, after)
  {}

  /** `text` ends with a tag of this name that began while the scanner was idle. */
  ghost predicate EndsWithTag(text: string, start: string, kind: TagKind, before: string, name: string, after: string) {
    After(start) == Idle && ValidTag(kind, before, name, after) && text == start + Tag(kind, before, name, after)
  }

  /** The scanner recognises exactly the tags of the documentation that begin while it is idle. */
  lemma RecognisedIff(text: string, name: string)
    ensures Ends(text) == Some(name)
            <==> exists start, kind, before, after :: EndsWithTag(text, start, kind, before, name, after)
  {
    if Ends(text) == Some(name) {
      var front, c := text[..|text| - 1], text[|text| - 1];
      var start, before, after := Explain(front);
      var s := After(front);
      assert text == front + [c];
      after := ExplainLeadOut(front, c, s.kind, s.name, s.index, start, before, after);
      assert EndsWithTag(text, start, s.kind, before, name, after);
    }
    forall start, kind, before, after | EndsWithTag(text, start, kind, before, name, after)
      ensures Ends(text) == Some(name)
    {
      IdleTagIsRecognised(start, kind, before, name, after);
    }
  }

  // ----- A tag has only one beginning -----

  lemma TagChars(kind: TagKind, before: string, name: string, after: string, i: nat)
    requires ValidTag(kind, before, name, after)
    requires |LeadIn(kind)| <= i < |Tag(kind, before, name, after)| - |LeadOut(kind)|
    ensures Tag(kind, before, name, after)[i] != LeadOut(kind)[0]
  {
    var t, l := Tag(kind, before, name, after), |LeadIn(kind)|;
    if i < l + |before| {
      assert t[i] == before[i - l];
    } else if i < l + |before| + |name| {
      assert t[i] == name[i - l - |before|];
    } else {
      assert t[i] == after[i - l - |before| - |name|];
    }
  }

  lemma TagEdges(start: string, kind: TagKind, before: string, name: string, after: string)
    requires ValidTag(kind, before, name, after)
    ensures var text := start + Tag(kind, before, name, after);
            && |text| > |start| + |LeadIn(kind)| + |LeadOut(kind)|
            && text[|start|..|start| + |LeadIn(kind)|] == LeadIn(kind)
            && text[|text| - |LeadOut(kind)|..] == LeadOut(kind)
            && forall i :: |start| + |LeadIn(kind)| <= i < |text| - |LeadOut(kind)| ==> text[i] != LeadOut(kind)[0]
  {
    hide LeadIn, LeadOut, AllSpace, ValidName;
    var tag, l, o := Tag(kind, before, name, after), |LeadIn(kind)|, |LeadOut(kind)|;
    var text, n := start + tag, |start|;
    TagEnds(kind, before + name + after);
    assert tag == LeadIn(kind) + (before + name + after) + LeadOut(kind);
    assert text[n..n + |tag|] == tag;
    Within(text, n, tag, 0, l);
    Within(text, n, tag, |tag| - o, |tag|);
    assert text[|text| - o..] == text[n + (|tag| - o)..n + |tag|];
    assert |name| > 0 by {
      NameNotEmpty(kind, name);
    }
    forall i | n + l <= i < |text| - o
      ensures text[i] != LeadOut(kind)[0]
    {
      TagChars(kind, before, name, after, i - n);
    }
  }

  lemma TagEnds(kind: TagKind, middle: string)
    ensures var tag, l, o := LeadIn(kind) + middle + LeadOut(kind), |LeadIn(kind)|, |LeadOut(kind)|;
            tag[0..l] == LeadIn(kind) && tag[|tag| - o..|tag|] == LeadOut(kind)
  {
    hide LeadIn, LeadOut;
  }

  lemma NameNotEmpty(kind: TagKind, name: string)
    requires ValidName(kind, name)
    ensures |name| > 0
  {}

  lemma OneBeginning(start: string, kind: TagKind, before: string, name: string, after: string,
                     start': string, kind': TagKind, before': string, name': string, after': string)
    requires ValidTag(kind, before, name, after) && ValidTag(kind', before', name', after')
    requires start + Tag(kind, before, name, after) == start' + Tag(kind', before', name', after')
    ensures start == start'
  {
    hide Tag, LeadIn, LeadOut, ValidTag;
    var text := start + Tag(kind, before, name, after);
    TagEdges(start, kind, before, name, after);
    TagEdges(start', kind', before', name', after');
    var a, b := |start|, |start'|;
    assert text[..a] == start && text[..b] == start';
    SameLength(text, kind, kind', a, b);
    SameLength(text, kind', kind, b, a);
  }

  /** Lead-in at a and at b, lead-out at the end, none of its first character between: not a < b. */
  lemma SameLength(text: string, kind: TagKind, kind': TagKind, a: nat, b: nat)
    requires |text| > a + |LeadIn(kind)| + |LeadOut(kind)| && |text| > b + |LeadIn(kind')| + |LeadOut(kind')|
    requires text[a..a + |LeadIn(kind)|] == LeadIn(kind) && text[b..b + |LeadIn(kind')|] == LeadIn(kind')
    requires text[|text| - |LeadOut(kind)|..] == LeadOut(kind) && text[|text| - |LeadOut(kind')|..] == LeadOut(kind')
    requires forall i :: a + |LeadIn(kind)| <= i < |text| - |LeadOut(kind)| ==> text[i] != LeadOut(kind)[0]
    ensures a >= b
  {
    var n := |text|;
    assert text[n - |LeadOut(kind)|..][|LeadOut(kind)| - 1] == text[n - 1];
    assert text[n - |LeadOut(kind')|..][|LeadOut(kind')| - 1] == text[n - 1];
    assert kind == kind';
    var l, o := text[a..a + |LeadIn(kind)|], text[b..b + |LeadIn(kind)|];
    var e := text[n - |LeadOut(kind)|..];
    match kind {
      case Html =>
        assert text[a + 1] == l[1] == '!' && text[a + 2] == l[2] == '-';
        assert text[a + 3] == l[3] == '-' && text[a + 4] == l[4] == '#';
        assert text[b] == o[0] == '<' && text[b + 2] == o[2] == '-';
      case Script =>
        assert text[a + 1] == l[1] == '*' && text[a + 2] == l[2] == '#';
        assert text[b] == o[0] == '/' && text[b + 1] == o[1] == '*';
    }
  }

  /** A well-formed tag in a page is followed by an insert exactly when the scanner is idle where it
      begins: a stray '<' or '/' in front, or an unfinished tag, hides it. */
  lemma TagRecognisedIff(start: string, kind: TagKind, before: string, name: string, after: string)
    requires ValidTag(kind, before, name, after)
    ensures Ends(start + Tag(kind, before, name, after)).Some? <==> After(start) == Idle
    ensures After(start) == Idle ==> Ends(start + Tag(kind, before, name, after)) == Some(name)
  {
    var text := start + Tag(kind, before, name, after);
    if After(start) == Idle {
      IdleTagIsRecognised(start, kind, before, name, after);
    }
    if Ends(text).Some? {
      var name' := Ends(text).value;
      RecognisedIff(text, name');
      var start', kind', before', after' :| EndsWithTag(text, start', kind', before', name', after');
      OneBeginning(start, kind, before, name, after, start', kind', before', name', after');
    }
  }

  predicate IsBracket(c: char) {
    c == '<' || c == '/'
  }

  /** The documentation promises an insert for every tag. One character after an idle point, a tag has
      none exactly when that character is a stray bracket. */
  lemma StrayBracketHidesTagIff(start: string, c: char, kind: TagKind, before: string, name: string, after: string)
    requires After(start) == Idle && ValidTag(kind, before, name, after)
    ensures Ends(start + [c] + Tag(kind, before, name, after)) == None <==> IsBracket(c)
  {
    hide After, Ends, Tag, ValidTag;
    AfterAppend(start, c);
    TagRecognisedIff(start + [c], kind, before, name, after);
  }

  /** No lead-in gets past its first character here. */
  predicate Plain(text: string) {
    forall i :: 0 <= i < |text| - 1 ==>
                  !(text[i] == '<' && text[i + 1] == '!') && !(text[i] == '/' && text[i + 1] == '*')
  }

  /** How many brackets the text ends with. */
  function TrailingBrackets(text: string): nat {
    if text == "" || !IsBracket(text[|text| - 1]) then 0 else 1 + TrailingBrackets(text[..|text| - 1])
  }

  /** After plain text that starts at an idle point the scanner is idle exactly when the brackets at
      its end pair up; else it has taken the last one for the first character of a lead-in. */
  lemma {:induction false} IdleAfterPlainTextIff(start: string, text: string)
    requires After(start) == Idle && Plain(text)
    ensures After(start + text) == Idle <==> TrailingBrackets(text) % 2 == 0
    ensures TrailingBrackets(text) % 2 == 1 ==>
              After(start + text) == InLeadIn(if text[|text| - 1] == '<' then Html else Script, 1)
  {
    hide After, Ends;
    if text == "" {
      assert start + text == start;
    } else {
      var front, c := text[..|text| - 1], text[|text| - 1];
      assert start + text == (start + front) + [c];
      IdleAfterPlainTextIff(start, front);
      AfterAppend(start + front, c);
      if front != "" {
        assert front[|front| - 1] == text[|text| - 2];
      }
    }
  }

  /** In terms of the page alone: a tag that follows plain text, at the start of the page or behind a
      recognised tag, has an insert exactly when an even number of brackets stands right before it. */
  lemma TagAfterPlainTextIff(start: string, text: string, kind: TagKind, before: string, name: string, after: string)
    requires (start == "" || Ends(start).Some?) && Plain(text) && ValidTag(kind, before, name, after)
    ensures Ends(start + text + Tag(kind, before, name, after)).Some? <==> TrailingBrackets(text) % 2 == 0
  {
    IdleAfterTag(start);
    hide After, Ends, Tag, ValidTag;
    IdleAfterPlainTextIff(start, text);
    TagRecognisedIff(start + text, kind, before, name, after);
  }

  lemma IdleAfterTag(text: string)
    requires text == "" || Ends(text).Some?
    ensures After(text) == Idle
  {
    if text != "" {
      var s, c := After(text[..|text| - 1]), text[|text| - 1];
      assert ScanChar(s, c).1.Some?;
    }
  }

  // ----- The served text, prefix by prefix -----

  /** How many tags end in the text. */
  function TagCount(text: string): nat {
    if text == "" then 0 else TagCount(text[..|text| - 1]) + (if Ends(text).Some? then 1 else 0)
  }

  /** The text with, after every character that ends a tag, that tag's insert. */
  function Annotate(site: Site, text: string): string {
    if text == "" then ""
    else
      Annotate(site, text[..|text| - 1]) + [text[|text| - 1]]
      + if Ends(text).Some? then Insert(site, Ends(text).value, TagCount(text[..|text| - 1])) else ""
  }

  /** What the character after `text` contributes. */
  function Contribution(site: Site, text: string, c: char): string {
    [c] + if Ends(text + [c]).Some? then Insert(site, Ends(text + [c]).value, TagCount(text)) else ""
  }

  lemma AnnotateStep(site: Site, text: string, c: char)
    ensures Annotate(site, text + [c]) == Annotate(site, text) + Contribution(site, text, c)
    ensures TagCount(text + [c]) == TagCount(text) + (if Ends(text + [c]).Some? then 1 else 0)
  {
    hide After, Insert, ScanChar;
    assert (text + [c])[..|text|] == text;
  }

  lemma ExpandHead(site: Site, text: string, rest: string)
    requires rest != ""
    ensures Expand(site, After(text), rest, TagCount(text))
            == Contribution(site, text, rest[0])
               + Expand(site, After(text + [rest[0]]), rest[1..], TagCount(text + [rest[0]]))
  {
    hide After, Ends, Insert, Annotate, TagCount, ScanChar;
    AfterAppend(text, rest[0]);
    AnnotateStep(site, text, rest[0]);
  }

  lemma {:induction false} ExpandAnnotates(site: Site, text: string, rest: string)
    ensures Annotate(site, text + rest) == Annotate(site, text) + Expand(site, After(text), rest, TagCount(text))
    decreases |rest|
  {
    hide After, Ends, Insert, ScanChar, Contribution, TagCount;
    if rest == "" {
      assert text + rest == text;
    } else {
      var more := text + [rest[0]];
      assert text + rest == more + rest[1..];
      AnnotateStep(site, text, rest[0]);
      ExpandHead(site, text, rest);
      ExpandAnnotates(site, more, rest[1..]);
    }
  }

  /** One-shot expansion is the page with each recognised tag followed once by its insert. */
  lemma ServedText(site: Site, text: string)
    ensures Expand(site, Idle, text, 0) == Annotate(site, text)
  {
    ExpandAnnotates(site, "", text);
    assert "" + text == text;
  }

  // ----- What is served, piece by piece -----

  /** No tag ends inside `part` behind `text`. */
  ghost predicate Quiet(text: string, part: string) {
    forall i :: 1 <= i <= |part| ==> Ends(text + part[..i]) == None
  }

  lemma {:induction false} QuietIsServed(site: Site, text: string, part: string)
    requires Quiet(text, part)
    ensures Annotate(site, text + part) == Annotate(site, text) + part && TagCount(text + part) == TagCount(text)
  {
    hide Annotate, TagCount, Ends;
    if part == "" {
      assert text + part == text;
    } else {
      var front, c := part[..|part| - 1], part[|part| - 1];
      assert part[..|part|] == part && text + part == (text + front) + [c];
      assert forall i :: 1 <= i <= |front| ==> front[..i] == part[..i];
      QuietIsServed(site, text, front);
      AnnotateStep(site, text + front, c);
      assert (Annotate(site, text) + front) + [c] == Annotate(site, text) + part;
    }
  }

  lemma BusyIsQuiet(text: string)
    requires text != "" && After(text) != Idle
    ensures Ends(text) == None
  {
    if Ends(text).Some? {
      IdleAfterTag(text);
    }
  }

  /** Text without lead-ins is served as it is. */
  lemma {:induction false} PlainIsQuiet(start: string, text: string)
    requires After(start) == Idle && Plain(text)
    ensures Quiet(start, text)
  {
    forall i | 1 <= i <= |text|
      ensures Ends(start + text[..i]) == None
    {
      var front, c := text[..i - 1], text[i - 1];
      assert start + text[..i] == (start + front) + [c];
      IdleAfterPlainTextIff(start, front);
      AfterAppend(start + front, c);
    }
  }

  lemma LeadInIsQuiet(start: string, kind: TagKind)
    requires After(start) == Idle
    ensures Quiet(start, LeadIn(kind))
  {
    hide After, Ends;
    forall i | 1 <= i <= |LeadIn(kind)|
      ensures Ends(start + LeadIn(kind)[..i]) == None
    {
      LeadInRun(start, kind, i);
      BusyIsQuiet(start + LeadIn(kind)[..i]);
    }
  }

  lemma SpaceIsQuiet(text: string, kind: TagKind, space: string)
    requires AtName(After(text), kind) && AllSpace(space)
    ensures Quiet(text, space)
  {
    hide After, Ends;
    forall i | 1 <= i <= |space|
      ensures Ends(text + space[..i]) == None
    {
      SpaceRun(text, kind, space[..i]);
      BusyIsQuiet(text + space[..i]);
    }
  }

  lemma NameIsQuiet(text: string, kind: TagKind, name: string)
    requires AtName(After(text), kind) && ValidName(kind, name)
    ensures Quiet(text, name)
  {
    hide After, Ends;
    forall i | 1 <= i <= |name|
      ensures Ends(text + name[..i]) == None
    {
      NameRun(text, kind, name[..i]);
      BusyIsQuiet(text + name[..i]);
    }
  }

  lemma TrailingSpaceIsQuiet(text: string, kind: TagKind, name: string, space: string)
    requires After(text) == InName(kind, name) && ValidName(kind, name) && AllSpace(space)
    ensures Quiet(text, space)
  {
    hide After, Ends;
    forall i | 1 <= i <= |space|
      ensures Ends(text + space[..i]) == None
    {
      TrailingSpaceRun(text, kind, name, space[..i]);
      BusyIsQuiet(text + space[..i]);
    }
  }

  lemma LeadOutIsQuiet(text: string, kind: TagKind, name: string)
    requires ValidName(kind, name)
    requires After(text) == InName(kind, name) || After(text) == InLeadOut(kind, name, 0)
    ensures Quiet(text, LeadOut(kind)[..|LeadOut(kind)| - 1])
  {
    hide After, Ends;
    var o := LeadOut(kind)[..|LeadOut(kind)| - 1];
    forall i | 1 <= i <= |o|
      ensures Ends(text + o[..i]) == None
    {
      assert o[..i] == LeadOut(kind)[..i];
      LeadOutRun(text, kind, name, i);
      BusyIsQuiet(text + o[..i]);
    }
  }

  /** Up to its last character a tag is served as it is. */
  lemma TagIsQuiet(site: Site, start: string, kind: TagKind, before: string, name: string, after: string)
    requires After(start) == Idle && ValidTag(kind, before, name, after)
    ensures var body := LeadIn(kind) + before + name + after + LeadOut(kind)[..|LeadOut(kind)| - 1];
            Annotate(site, start + body) == Annotate(site, start) + body && TagCount(start + body) == TagCount(start)
  {
    hide After, Ends, Annotate, TagCount, LeadIn, LeadOut, Quiet;
    var l, o := LeadIn(kind), LeadOut(kind)[..|LeadOut(kind)| - 1];
    LeadInIsQuiet(start, kind);
    QuietIsServed(site, start, l);
    LeadInRun(start, kind, |l|);
    assert l[..|l|] == l;
    SpaceIsQuiet(start + l, kind, before);
    QuietIsServed(site, start + l, before);
    SpaceRun(start + l, kind, before);
    NameIsQuiet(start + l + before, kind, name);
    QuietIsServed(site, start + l + before, name);
    NameRun(start + l + before, kind, name);
    TrailingSpaceIsQuiet(start + l + before + name, kind, name, after);
    QuietIsServed(site, start + l + before + name, after);
    AfterName(start + l + before + name, kind, name, after);
    LeadOutIsQuiet(start + l + before + name + after, kind, name);
    QuietIsServed(site, start + l + before + name + after, o);
    FivePieces(start, l, before, name, after, o);
    FivePieces(Annotate(site, start), l, before, name, after, o);
  }

  lemma AfterName(text: string, kind: TagKind, name: string, space: string)
    requires After(text) == InName(kind, name) && ValidName(kind, name) && AllSpace(space)
    ensures After(text + space) == InName(kind, name) || After(text + space) == InLeadOut(kind, name, 0)
  {
    hide After;
    if space == "" {
      assert text + space == text;
    } else {
      TrailingSpaceRun(text, kind, name, space);
    }
  }

  lemma FivePieces(a: string, b: string, c: string, d: string, e: string, f: string)
    ensures a + b + c + d + e + f == a + (b + c + d + e + f)
  {}

  /** The promise of a tag, without the scanner: behind it, once, stands what the handler returns for the
      first registered tag of that name, or the text for an unknown tag when there is none. */
  lemma TagIsServed(site: Site, start: string, kind: TagKind, before: string, name: string, after: string, j: nat)
    requires After(start) == Idle && ValidTag(kind, before, name, after) && '\0' !in name
    requires j <= |site.tags| && (forall i :: 0 <= i < j ==> site.tags[i] != name)
    requires j < |site.tags| ==> site.tags[j] == name
    ensures Annotate(site, start + Tag(kind, before, name, after))
            == Annotate(site, start) + Tag(kind, before, name, after)
               + if site.installed && j < |site.tags| then site.handler(j, TagCount(start))
                 else "<b>***UNKNOWN TAG " + name + "***</b>"
  {
    hide After, Ends, Annotate, TagCount, Insert, ValidTag, LeadIn, LeadOut, Tag;
    var o, k := LeadOut(kind), TagCount(start);
    var body, c := LeadIn(kind) + before + name + after + o[..|o| - 1], o[|o| - 1];
    LastOfTag(kind, before, name, after);
    TagIsQuiet(site, start, kind, before, name, after);
    IdleTagIsRecognised(start, kind, before, name, after);
    AppendOne(start, body, c);
    AnnotateStep(site, start + body, c);
    InsertIs(site, name, k, j);
    LastPiece(Annotate(site, start), body, c, Insert(site, name, k));
  }

  lemma LastOfTag(kind: TagKind, before: string, name: string, after: string)
    ensures var o := LeadOut(kind);
            LeadIn(kind) + before + name + after + o[..|o| - 1] + [o[|o| - 1]] == Tag(kind, before, name, after)
  {
    var o := LeadOut(kind);
    assert o == o[..|o| - 1] + [o[|o| - 1]];
    hide LeadIn, LeadOut;
    AppendOne(LeadIn(kind) + before + name + after, o[..|o| - 1], o[|o| - 1]);
  }

  lemma LastPiece(front: string, body: string, c: char, insert: string)
    ensures (front + body) + ([c] + insert) == front + (body + [c]) + insert
  {}

  lemma InsertIs(site: Site, name: string, k: nat, j: nat)
    requires '\0' !in name && j <= |site.tags| && (forall i :: 0 <= i < j ==> site.tags[i] != name)
    requires j < |site.tags| ==> site.tags[j] == name
    ensures Insert(site, name, k) == if site.installed && j < |site.tags| then site.handler(j, k)
                                     else "<b>***UNKNOWN TAG " + name + "***</b>"
  {
    WholeCString(name);
    assert FindTag(site.tags, name, 0) == j;
  }

  lemma {:induction false} WholeCString(s: string)
    requires '\0' !in s
    ensures CString(s) == s
  {
    if s != "" {
      WholeCString(s[1..]);
    }
  }
}
