/** The browser dashboard (public/app.js): the attribute escaper used when it
    builds card markup, the status order of the cards, the text check of the
    "add task" box and the poll loop's re-render guard. */
module Dashboard {
  import opened Wrappers
  import opened Seqs
  import opened SessionModel

  // ---------------------------------------------------------------------------
  // escapeAttr

  /** The five characters `escapeAttr` rewrites. */
  predicate IsSpecial(c: char) {
    c == '&' || c == '"' || c == '\'' || c == '<' || c == '>'
  }

  /** `s.replace(/c/g, rep)`: every occurrence of the character `c` becomes `rep`;
      the replacement text is not scanned again. */
  function ReplaceAll(s: string, c: char, rep: string): (r: string)
    ensures c !in s ==> r == s
  {
    if s == [] then []
    else (if s[0] == c then rep else [s[0]]) + ReplaceAll(s[1..], c, rep)
  }

  /** A pass over one character. */
  lemma ReplaceAllOne(x: char, c: char, rep: string)
    ensures ReplaceAll([x], c, rep) == if x == c then rep else [x]
  {
    assert [x][1..] == [];
  }

  /** `escapeAttr`: five global replacements, `&` first. Text without special
      characters passes through unchanged. */
  function EscapeAttr(s: string): (r: string)
    ensures (forall k :: 0 <= k < |s| ==> !IsSpecial(s[k])) ==> r == s
  {
    var s1 := ReplaceAll(s, '&', "&amp;");
    var s2 := ReplaceAll(s1, '"', "&quot;");
    var s3 := ReplaceAll(s2, '\'', "&#39;");
    var s4 := ReplaceAll(s3, '<', "&lt;");
    ReplaceAll(s4, '>', "&gt;")
  }

  /** The entity one character stands for in attribute text. */
  function EscapeChar(c: char): string {
    if c == '&' then "&amp;"
    else if c == '"' then "&quot;"
    else if c == '\'' then "&#39;"
    else if c == '<' then "&lt;"
    else if c == '>' then "&gt;"
    else [c]
  }

  /** Escaping character by character: the reference definition of `escapeAttr`. */
  function EscapeEach(s: string): string {
    if s == [] then [] else EscapeChar(s[0]) + EscapeEach(s[1..])
  }

  /** A replacement pass works on the parts of a concatenation independently. */
  lemma {:induction false} ReplaceAllConcat(a: string, b: string, c: char, rep: string)
    ensures ReplaceAll(a + b, c, rep) == ReplaceAll(a, c, rep) + ReplaceAll(b, c, rep)
  {
    if a == [] {
      assert a + b == b;
    } else {
      var x := if a[0] == c then rep else [a[0]];
      assert (a + b)[0] == a[0];
      assert (a + b)[1..] == a[1..] + b;
      ReplaceAllConcat(a[1..], b, c, rep);
      AppendAssoc(x, ReplaceAll(a[1..], c, rep), ReplaceAll(b, c, rep));
    }
  }

  /** `escapeAttr` works on the parts of a concatenation independently. */
  lemma EscapeAttrConcat(a: string, b: string)
    ensures EscapeAttr(a + b) == EscapeAttr(a) + EscapeAttr(b)
  {
    var a1, b1 := ReplaceAll(a, '&', "&amp;"), ReplaceAll(b, '&', "&amp;");
    ReplaceAllConcat(a, b, '&', "&amp;");
    var a2, b2 := ReplaceAll(a1, '"', "&quot;"), ReplaceAll(b1, '"', "&quot;");
    ReplaceAllConcat(a1, b1, '"', "&quot;");
    var a3, b3 := ReplaceAll(a2, '\'', "&#39;"), ReplaceAll(b2, '\'', "&#39;");
    ReplaceAllConcat(a2, b2, '\'', "&#39;");
    var a4, b4 := ReplaceAll(a3, '<', "&lt;"), ReplaceAll(b3, '<', "&lt;");
    ReplaceAllConcat(a3, b3, '<', "&lt;");
    ReplaceAllConcat(a4, b4, '>', "&gt;");
  }

  /** `&` becomes `&amp;`, which the four later passes leave alone. */
  lemma EscapeAmp()
    ensures EscapeAttr("&") == "&amp;"
  {
    ReplaceAllOne('&', '&', "&amp;");
    assert '"' !in "&amp;" && '\'' !in "&amp;" && '<' !in "&amp;" && '>' !in "&amp;";
  }

  lemma EscapeQuot()
    ensures EscapeAttr("\"") == "&quot;"
  {
    ReplaceAllOne('"', '&', "&amp;");
    ReplaceAllOne('"', '"', "&quot;");
    assert '\'' !in "&quot;" && '<' !in "&quot;" && '>' !in "&quot;";
  }

  lemma EscapeApos()
    ensures EscapeAttr("'") == "&#39;"
  {
    ReplaceAllOne('\'', '&', "&amp;");
    ReplaceAllOne('\'', '"', "&quot;");
    ReplaceAllOne('\'', '\'', "&#39;");
    assert '<' !in "&#39;" && '>' !in "&#39;";
  }

  lemma EscapeLt()
    ensures EscapeAttr("<") == "&lt;"
  {
    ReplaceAllOne('<', '&', "&amp;");
    ReplaceAllOne('<', '"', "&quot;");
    ReplaceAllOne('<', '\'', "&#39;");
    ReplaceAllOne('<', '<', "&lt;");
    assert '>' !in "&lt;";
  }

  lemma EscapeGt()
    ensures EscapeAttr(">") == "&gt;"
  {
    ReplaceAllOne('>', '&', "&amp;");
    ReplaceAllOne('>', '"', "&quot;");
    ReplaceAllOne('>', '\'', "&#39;");
    ReplaceAllOne('>', '<', "&lt;");
    ReplaceAllOne('>', '>', "&gt;");
  }

  /** On one character, `escapeAttr` produces that character's entity: the
      entities written by later passes are not rewritten, because `&` goes first. */
  lemma EscapeAttrChar(c: char)
    ensures EscapeAttr([c]) == EscapeChar(c)
  {
    if c == '&' { EscapeAmp(); }
    else if c == '"' { EscapeQuot(); }
    else if c == '\'' { EscapeApos(); }
    else if c == '<' { EscapeLt(); }
    else if c == '>' { EscapeGt(); }
    else { assert !IsSpecial([c][0]); }
  }

  /** Because `&` is replaced first, the five passes equal the per-character map. */
  lemma {:induction false} EscapeAttrPerChar(s: string)
    ensures EscapeAttr(s) == EscapeEach(s)
  {
    if s != [] {
      assert s == [s[0]] + s[1..];
      EscapeAttrConcat([s[0]], s[1..]);
      EscapeAttrChar(s[0]);
      EscapeAttrPerChar(s[1..]);
    }
  }

  /** No entity contains a quote or an angle bracket. */
  lemma {:induction false} EscapeEachSafe(s: string)
    ensures var r := EscapeEach(s); '"' !in r && '\'' !in r && '<' !in r && '>' !in r
  {
    if s != [] {
      EscapeEachSafe(s[1..]);
      var e := EscapeChar(s[0]);
      assert '"' !in e && '\'' !in e && '<' !in e && '>' !in e;
    }
  }

  /** The output of `escapeAttr` contains no quote and no angle bracket, so it
      cannot end the attribute value or open a tag. */
  lemma EscapeAttrSafe(s: string)
    ensures var r := EscapeAttr(s); '"' !in r && '\'' !in r && '<' !in r && '>' !in r
  {
    EscapeAttrPerChar(s);
    EscapeEachSafe(s);
  }

  /** Text in which every `&` starts one of the five entities and no other
      special character occurs: the shape of `escapeAttr`'s output. */
  predicate Escaped(r: string)
    decreases |r|
  {
    if r == [] then true
    else if r[0] == '&' then
      (|r| >= 5 && r[..5] == "&amp;" && Escaped(r[5..])) ||
      (|r| >= 6 && r[..6] == "&quot;" && Escaped(r[6..])) ||
      (|r| >= 5 && r[..5] == "&#39;" && Escaped(r[5..])) ||
      (|r| >= 4 && r[..4] == "&lt;" && Escaped(r[4..])) ||
      (|r| >= 4 && r[..4] == "&gt;" && Escaped(r[4..]))
    else !IsSpecial(r[0]) && Escaped(r[1..])
  }

  /** Decoding of the five entities, left to right; any other character stands for itself. */
  function Unescape(r: string): string
    decreases |r|
  {
    if r == [] then []
    else if |r| >= 5 && r[..5] == "&amp;" then "&" + Unescape(r[5..])
    else if |r| >= 6 && r[..6] == "&quot;" then "\"" + Unescape(r[6..])
    else if |r| >= 5 && r[..5] == "&#39;" then "'" + Unescape(r[5..])
    else if |r| >= 4 && r[..4] == "&lt;" then "<" + Unescape(r[4..])
    else if |r| >= 4 && r[..4] == "&gt;" then ">" + Unescape(r[4..])
    else [r[0]] + Unescape(r[1..])
  }

  // One step of decoding, entity by entity: the entities differ at their second
  // character, so at most one of them matches.

  lemma UnescapeAmp(r: string)
    requires |r| >= 5 && r[..5] == "&amp;"
    ensures Unescape(r) == "&" + Unescape(r[5..])
    ensures Escaped(r[5..]) ==> Escaped(r)
  {
  }

  lemma UnescapeQuot(r: string)
    requires |r| >= 6 && r[..6] == "&quot;"
    ensures Unescape(r) == "\"" + Unescape(r[6..])
    ensures Escaped(r[6..]) ==> Escaped(r)
  {
    assert r[1] == r[..6][1] == 'q';
    assert r[..5] != "&amp;" by { assert r[..5][1] == r[1]; }
  }

  lemma UnescapeApos(r: string)
    requires |r| >= 5 && r[..5] == "&#39;"
    ensures Unescape(r) == "'" + Unescape(r[5..])
    ensures Escaped(r[5..]) ==> Escaped(r)
  {
    assert |r| >= 6 ==> r[..6][1] == r[..5][1];
  }

  lemma UnescapeLt(r: string)
    requires |r| >= 4 && r[..4] == "&lt;"
    ensures Unescape(r) == "<" + Unescape(r[4..])
    ensures Escaped(r[4..]) ==> Escaped(r)
  {
    assert |r| >= 5 ==> r[..5][1] == r[..4][1];
    assert |r| >= 6 ==> r[..6][1] == r[..4][1];
  }

  lemma UnescapeGt(r: string)
    requires |r| >= 4 && r[..4] == "&gt;"
    ensures Unescape(r) == ">" + Unescape(r[4..])
    ensures Escaped(r[4..]) ==> Escaped(r)
  {
    assert |r| >= 5 ==> r[..5][1] == r[..4][1];
    assert |r| >= 6 ==> r[..6][1] == r[..4][1];
  }

  lemma UnescapeOrdinary(r: string)
    requires r != [] && !IsSpecial(r[0])
    ensures Unescape(r) == [r[0]] + Unescape(r[1..])
    ensures Escaped(r[1..]) ==> Escaped(r)
  {
    assert |r| >= 4 ==> r[..4][0] == r[0];
    assert |r| >= 5 ==> r[..5][0] == r[0];
    assert |r| >= 6 ==> r[..6][0] == r[0];
  }

  /** Decoding one escaped character in front of more text yields that character. */
  lemma UnescapeChar(c: char, rest: string)
    ensures Unescape(EscapeChar(c) + rest) == [c] + Unescape(rest)
    ensures Escaped(rest) ==> Escaped(EscapeChar(c) + rest)
  {
    var e := EscapeChar(c);
    var r := e + rest;
    assert r[..|e|] == e && r[|e|..] == rest;
    if c == '&' { UnescapeAmp(r); }
    else if c == '"' { UnescapeQuot(r); }
    else if c == '\'' { UnescapeApos(r); }
    else if c == '<' { UnescapeLt(r); }
    else if c == '>' { UnescapeGt(r); }
    else { UnescapeOrdinary(r); }
  }

  /** Escaped text begins with the entity of the first character it decodes to. */
  lemma EscapedHead(r: string) returns (c: char, n: nat)
    requires Escaped(r) && r != []
    ensures 0 < n <= |r| && r[..n] == EscapeChar(c) && Escaped(r[n..])
    ensures Unescape(r) == [c] + Unescape(r[n..])
  {
    if r[0] != '&' {
      c, n := r[0], 1;
      UnescapeOrdinary(r);
    } else if |r| >= 5 && r[..5] == "&amp;" && Escaped(r[5..]) {
      c, n := '&', 5;
      UnescapeAmp(r);
    } else if |r| >= 6 && r[..6] == "&quot;" && Escaped(r[6..]) {
      c, n := '"', 6;
      UnescapeQuot(r);
    } else if |r| >= 5 && r[..5] == "&#39;" && Escaped(r[5..]) {
      c, n := '\'', 5;
      UnescapeApos(r);
    } else if |r| >= 4 && r[..4] == "&lt;" && Escaped(r[4..]) {
      c, n := '<', 4;
      UnescapeLt(r);
    } else {
      c, n := '>', 4;
      UnescapeGt(r);
    }
  }

  lemma EscapeEachCons(c: char, t: string)
    ensures EscapeEach([c] + t) == EscapeChar(c) + EscapeEach(t)
  {
    assert ([c] + t)[1..] == t;
  }

  /** Every `&` in the output of `escapeAttr` starts an entity, and decoding the
      output gives back the input. */
  lemma {:induction false} UnescapeEscapeAttr(s: string)
    ensures Escaped(EscapeAttr(s))
    ensures Unescape(EscapeAttr(s)) == s
  {
    EscapeAttrPerChar(s);
    EscapeEachRoundTrip(s);
  }

  lemma {:induction false} EscapeEachRoundTrip(s: string)
    ensures Escaped(EscapeEach(s))
    ensures Unescape(EscapeEach(s)) == s
  {
    if s != [] {
      EscapeEachRoundTrip(s[1..]);
      UnescapeChar(s[0], EscapeEach(s[1..]));
      assert s == [s[0]] + s[1..];
    }
  }

  /** Escaped text is the escaping of its decoding: `escapeAttr` is onto the escaped texts. */
  lemma {:induction false} EscapeAttrUnescape(r: string)
    requires Escaped(r)
    ensures EscapeAttr(Unescape(r)) == r
    decreases |r|
  {
    EscapeAttrPerChar(Unescape(r));
    EscapeEachUnescape(r);
  }

  lemma {:induction false} EscapeEachUnescape(r: string)
    requires Escaped(r)
    ensures EscapeEach(Unescape(r)) == r
    decreases |r|
  {
    if r != [] {
      var c, n := EscapedHead(r);
      EscapeEachUnescape(r[n..]);
      EscapeEachCons(c, Unescape(r[n..]));
      assert r == r[..n] + r[n..];
    }
  }

  // ---------------------------------------------------------------------------
  // The card order in render

  /** `order[s.status] ?? 3` with `order = { waiting: 0, busy: 1, idle: 2 }`. */
  function Rank(s: Status): (r: int)
    ensures 0 <= r <= 3
    ensures r == 0 <==> s == Waiting
    ensures r == 1 <==> s == Busy
    ensures r == 2 <==> s == Idle
  {
    match s
    case Waiting => 0
    case Busy => 1
    case Idle => 2
    case _ => 3
  }

  /** Every card ranks no lower than the cards after it. */
  predicate SortedByStatus(s: seq<Session>) {
    forall k, l :: 0 <= k < l < |s| ==> Rank(s[k].status) <= Rank(s[l].status)
  }

  /** Every card ranks no lower than its right neighbour. */
  predicate StepsSorted(s: seq<Session>) {
    forall k :: 0 < k < |s| ==> Rank(s[k - 1].status) <= Rank(s[k].status)
  }

  /** Order between neighbours is order between all pairs. */
  lemma {:induction false} StepsSortedIsSorted(s: seq<Session>)
    requires StepsSorted(s)
    ensures SortedByStatus(s)
  {
    if |s| > 1 {
      var init := s[..|s| - 1];
      assert StepsSorted(init);
      StepsSortedIsSorted(init);
      forall k | 0 <= k < |s| - 1
        ensures Rank(s[k].status) <= Rank(s[|s| - 1].status)
      {
        assert Rank(s[k].status) <= Rank(init[|init| - 1].status);
      }
    }
  }

  /** Exchanges two cards. */
  method Swap(a: array<Session>, i: nat, j: nat)
    requires i < a.Length && j < a.Length
    modifies a
    ensures a[i] == old(a[j]) && a[j] == old(a[i])
    ensures forall k :: 0 <= k < a.Length && k != i && k != j ==> a[k] == old(a[k])
    ensures multiset(a[..]) == multiset(old(a[..]))
  {
    a[i], a[j] := a[j], a[i];
  }

  /** Moves the card at `i` left past every card of a strictly higher rank,
      so that the first `i + 1` cards are in order. */
  method InsertLast(a: array<Session>, i: nat)
    requires i < a.Length && StepsSorted(a[..i])
    modifies a
    ensures StepsSorted(a[..i + 1])
    ensures multiset(a[..]) == multiset(old(a[..]))
  {
    var j := i;
    while 0 < j && Rank(a[j - 1].status) > Rank(a[j].status)
      invariant 0 <= j <= i
      invariant forall k :: 0 < k <= i && k != j ==> Rank(a[k - 1].status) <= Rank(a[k].status)
      invariant 0 < j < i ==> Rank(a[j - 1].status) <= Rank(a[j + 1].status)
      invariant multiset(a[..]) == multiset(old(a[..]))
    {
      Swap(a, j - 1, j);
      j := j - 1;
    }
  }

  /** `sessions.sort((a, b) => rank(a) - rank(b))`, in place: afterwards waiting
      sessions come first, then busy, then idle, then every other status, and the
      array holds the same sessions. */
  method SortByStatus(a: array<Session>)
    modifies a
    ensures SortedByStatus(a[..])
    ensures multiset(a[..]) == multiset(old(a[..]))
  {
    var i := 0;
    while i < a.Length
      invariant 0 <= i <= a.Length
      invariant StepsSorted(a[..i])
      invariant multiset(a[..]) == multiset(old(a[..]))
    {
      InsertLast(a, i);
      i := i + 1;
    }
    assert a[..a.Length] == a[..];
    StepsSortedIsSorted(a[..]);
  }

  // ---------------------------------------------------------------------------
  // The add-task box

  /** The characters `String.prototype.trim` removes: white space and line
      terminators of section 12.2 and 12.3 of ECMA-262. */
  predicate IsJsSpace(c: char) {
    c == '\t' || c == '\n' || c == '\U{000B}' || c == '\U{000C}' || c == '\r' || c == ' ' ||
    c == '\U{00A0}' || c == '\U{1680}' || ('\U{2000}' <= c <= '\U{200A}') ||
    c == '\U{2028}' || c == '\U{2029}' || c == '\U{202F}' || c == '\U{205F}' ||
    c == '\U{3000}' || c == '\U{FEFF}'
  }

  /** `s` without its leading white space. */
  function TrimStart(s: string): (r: string)
    ensures |r| <= |s| && r == s[|s| - |r|..]
    ensures r != [] ==> !IsJsSpace(r[0])
  {
    if s == [] || !IsJsSpace(s[0]) then s else TrimStart(s[1..])
  }

  /** `s` without its trailing white space. */
  function TrimEnd(s: string): (r: string)
    ensures |r| <= |s| && r == s[..|r|]
    ensures r != [] ==> !IsJsSpace(r[|r| - 1])
  {
    if s == [] || !IsJsSpace(s[|s| - 1]) then s else TrimEnd(s[..|s| - 1])
  }

  /** What `TrimStart` drops is white space. */
  lemma {:induction false} TrimStartDropsSpace(s: string)
    ensures forall k :: 0 <= k < |s| - |TrimStart(s)| ==> IsJsSpace(s[k])
  {
    if s != [] && IsJsSpace(s[0]) {
      TrimStartDropsSpace(s[1..]);
      forall k | 1 <= k < |s| - |TrimStart(s)|
        ensures IsJsSpace(s[k])
      {
        assert s[k] == s[1..][k - 1];
      }
    }
  }

  /** What `TrimEnd` drops is white space. */
  lemma {:induction false} TrimEndDropsSpace(s: string)
    ensures forall k :: |TrimEnd(s)| <= k < |s| ==> IsJsSpace(s[k])
  {
    if s != [] && IsJsSpace(s[|s| - 1]) {
      TrimEndDropsSpace(s[..|s| - 1]);
    }
  }

  /** `s.trim()`: a part of `s` with no white space at either end. */
  function Trim(s: string): (r: string)
    ensures |r| <= |s|
    ensures r != [] ==> !IsJsSpace(r[0]) && !IsJsSpace(r[|r| - 1])
  {
    TrimEnd(TrimStart(s))
  }

  /** What `trim` keeps is one stretch of its input. */
  lemma TrimSlice(s: string)
    ensures var r, i := Trim(s), |s| - |TrimStart(s)|;
      i + |r| <= |s| && r == s[i..i + |r|]
  {
    var t := TrimStart(s);
    var r := TrimEnd(t);
    var i := |s| - |t|;
    assert t == s[i..] && r == t[..|r|];
  }

  /** Everything after what `trim` keeps is white space. */
  lemma TrimTrailing(s: string)
    ensures var r, i := Trim(s), |s| - |TrimStart(s)|;
      forall k :: i + |r| <= k < |s| ==> IsJsSpace(s[k])
  {
    var t := TrimStart(s);
    var r := TrimEnd(t);
    var i := |s| - |t|;
    assert t == s[i..];
    TrimEndDropsSpace(t);
    forall k | i + |r| <= k < |s|
      ensures IsJsSpace(s[k])
    {
      var k' := k - i;
      assert |r| <= k' < |t|;
      assert IsJsSpace(t[k']);
      assert s[k] == t[k'];
    }
  }

  /** `trim` cuts white space off both ends and nothing else: the result is the
      stretch of `s` from its first to its last non-space character, and it is
      empty exactly when `s` is all white space. */
  lemma TrimSpec(s: string)
    ensures var r, i := Trim(s), |s| - |TrimStart(s)|;
      && i + |r| <= |s| && r == s[i..i + |r|]
      && (forall k :: 0 <= k < i ==> IsJsSpace(s[k]))
      && (forall k :: i + |r| <= k < |s| ==> IsJsSpace(s[k]))
      && (r != [] ==> !IsJsSpace(r[0]) && !IsJsSpace(r[|r| - 1]))
      && (r == [] <==> forall k :: 0 <= k < |s| ==> IsJsSpace(s[k]))
  {
    var t := TrimStart(s);
    var r := TrimEnd(t);
    var i := |s| - |t|;
    TrimSlice(s);
    TrimTrailing(s);
    TrimStartDropsSpace(s);
    if r != [] {
      assert r[0] == t[0] == s[i];
    }
  }

  /** `trim` returns the empty text exactly for white space. */
  lemma TrimEmptyIff(s: string)
    ensures Trim(s) == [] <==> forall k :: 0 <= k < |s| ==> IsJsSpace(s[k])
  {
    TrimSpec(s);
  }

  /** What `trim` keeps starts somewhere in its input. */
  lemma TextIsInInput(s: string)
    ensures exists i :: 0 <= i <= |s| && Trim(s) <= s[i..]
  {
    TrimSlice(s);
    var i := |s| - |TrimStart(s)|;
    assert Trim(s) <= s[i..];
  }

  /** `trim` is idempotent. */
  lemma TrimTwice(s: string)
    ensures Trim(Trim(s)) == Trim(s)
  {
    var r := Trim(s);
    TrimSpec(s);
    if r != [] {
      assert TrimStart(r) == r;
    }
  }

  /** The `addTask` check: the text posted for the input box's value, or nothing
      when the trimmed value is empty. */
  function TextToSend(value: string): (r: Option<string>)
    ensures r.None? <==> forall k :: 0 <= k < |value| ==> IsJsSpace(value[k])
    ensures r.Some? ==> r.value != [] && !IsJsSpace(r.value[0]) && !IsJsSpace(r.value[|r.value| - 1])
    ensures r.Some? ==> exists i :: 0 <= i <= |value| && r.value <= value[i..]
    ensures r.Some? ==> r.value == Trim(value)
  {
    var text := Trim(value);
    TrimEmptyIff(value);
    if text == [] then None
    else
      TextIsInInput(value);
      Some(text)
  }

  // ---------------------------------------------------------------------------
  // The poll loop

  /** The page state the poll loop keeps. The serialization of a fetched list
      (`JSON.stringify`) is computed by the caller and passed in. */
  class Poller {
    /** The serialized data last rendered (`null` before the first render). */
    var previousData: Option<string>
    /** The session cards on display, in display order. */
    var shown: seq<Session>
    /** How many times the dashboard was re-rendered. */
    ghost var renders: nat

    constructor ()
      ensures previousData == None && shown == [] && renders == 0
    {
      previousData := None;
      shown := [];
      renders := 0;
    }

    /** `render(sessions)`: sort the fetched array in place and show its cards. */
    method Render(sessions: array<Session>)
      modifies this, sessions
      ensures shown == sessions[..] && SortedByStatus(shown)
      ensures multiset(shown) == multiset(old(sessions[..]))
      ensures renders == old(renders) + 1 && previousData == old(previousData)
    {
      SortByStatus(sessions);
      shown := sessions[..];
      renders := renders + 1;
    }

    /** `poll()`, given what `fetchSessions` returned (`None` when the fetch failed)
        and its serialization: keep everything when the fetch failed or nothing
        changed; otherwise remember the new serialization and re-render. */
    method Poll(fetched: Option<array<Session>>, dataStr: string)
      modifies this, if fetched.Some? then {fetched.value} else {}
      ensures fetched.None? || old(previousData) == Some(dataStr) ==>
        previousData == old(previousData) && shown == old(shown) && renders == old(renders)
      ensures fetched.Some? && old(previousData) == Some(dataStr) ==>
        fetched.value[..] == old(fetched.value[..])
      ensures fetched.Some? && old(previousData) != Some(dataStr) ==>
        && previousData == Some(dataStr) && renders == old(renders) + 1
        && shown == fetched.value[..]
        && SortedByStatus(shown) && multiset(shown) == multiset(old(fetched.value[..]))
    {
      if fetched.None? {
        return;
      }
      if previousData != Some(dataStr) {
        previousData := Some(dataStr);
        Render(fetched.value);
      }
    }
  }
}
