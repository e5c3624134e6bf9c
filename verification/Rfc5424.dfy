/** The RFC 5424 side of the py-syslog parser: the header tokens and the STRUCTURED-DATA splitter
    (sections 6 and 6.3 of RFC 5424). */
module Rfc5424 {
  import opened Common

  datatype Split = Split(sd: string, message: string)

  // ---------------------------------------------------------------- the splitter

  /** Scanning from i at a bracket depth: one past the bracket that closes the element, skipping
      whatever follows a backslash; None when the text ends first. */
  function ElementEnd(t: string, i: nat, depth: int): Option<nat>
    decreases |t| - i
  {
    if i >= |t| then None
    else if t[i] == '\\' && i + 1 < |t| then ElementEnd(t, i + 2, depth)
    else if t[i] == '[' then ElementEnd(t, i + 1, depth + 1)
    else if t[i] == ']' then if depth == 1 then Some(i + 1) else ElementEnd(t, i + 1, depth - 1)
    else ElementEnd(t, i + 1, depth)
  }

  lemma {:induction false} ElementEndIsInside(t: string, i: nat, depth: int)
    ensures ElementEnd(t, i, depth).Some? ==> i < ElementEnd(t, i, depth).value <= |t|
    decreases |t| - i
  {
    if i < |t| {
      if t[i] == '\\' && i + 1 < |t| {
        ElementEndIsInside(t, i + 2, depth);
      } else {
        ElementEndIsInside(t, i + 1, depth + 1);
        ElementEndIsInside(t, i + 1, depth - 1);
        ElementEndIsInside(t, i + 1, depth);
      }
    }
  }

  /** One past the run of elements that starts at i; None when one of them is unterminated. */
  function RunEnd(t: string, i: nat): Option<nat>
    decreases |t| - i
  {
    if i >= |t| || t[i] != '[' then Some(i)
    else
      ElementEndIsInside(t, i, 0);
      var end := ElementEnd(t, i, 0);
      if end.None? then None else RunEnd(t, end.value)
  }

  function SplitSpec(tail: string): Split {
    if tail != "" && tail[0] == '-' then Split("", if "- " <= tail then tail[2..] else "")
    else if tail == "" || tail[0] != '[' then Split("", tail)
    else
      var end := RunEnd(tail, 0);
      if end.None? || end.value > |tail| then Split("", "")
      else if end.value < |tail| && tail[end.value] == ' ' then Split(tail[..end.value], tail[end.value + 1..])
      else Split(tail[..end.value], tail[end.value..])
  }

  /** The index and depth loop. */
  method SplitStructuredData(tail: string) returns (r: Split)
    ensures r == SplitSpec(tail)
    ensures SplitsAs(tail, r)
  {
    SplitMeans(tail);
    hide SplitsAs;
    if tail != "" && tail[0] == '-' {
      return Split("", if "- " <= tail then tail[2..] else "");
    }
    if tail == "" || tail[0] != '[' { return Split("", tail); }
    var i, n := 0, |tail|;
    while i < n && tail[i] == '['
      invariant i <= n && RunEnd(tail, i) == RunEnd(tail, 0)
      decreases n - i
    {
      ElementEndIsInside(tail, i, 0);
      ghost var start := i;
      var depth := 0;
      var closed := false;
      while i < n
        invariant start <= i <= n && 0 <= depth && (i == start ==> depth == 0 && tail[i] == '[')
            && (i > start ==> depth > 0)
        invariant ElementEnd(tail, i, depth) == ElementEnd(tail, start, 0)
        decreases n - i
      {
        if tail[i] == '\\' && i + 1 < n {
          i := i + 2;
          continue;
        }
        if tail[i] == '[' {
          depth := depth + 1;
        } else if tail[i] == ']' {
          if depth == 1 {
            i, closed := i + 1, true;
            break;
          }
          depth := depth - 1;
        }
        i := i + 1;
      }
      if !closed { return Split("", ""); }
    }
    if i < n && tail[i] == ' ' { return Split(tail[..i], tail[i + 1..]); }
    r := Split(tail[..i], tail[i..]);
  }

  // ---------------------------------------------------------------- what a split is

  /** An element's end does not depend on anything after it. */
  lemma {:induction false} ElementEndIsLocal(t: string, i: nat, depth: int, m: nat)
    requires ElementEnd(t, i, depth).Some? && ElementEnd(t, i, depth).value <= m <= |t|
    ensures ElementEnd(t[..m], i, depth) == ElementEnd(t, i, depth)
    decreases |t| - i
  {
    ElementEndIsInside(t, i, depth);
    if t[i] == '\\' && i + 1 < |t| {
      ElementEndIsInside(t, i + 2, depth);
      ElementEndIsLocal(t, i + 2, depth, m);
    } else if t[i] == '[' {
      ElementEndIsLocal(t, i + 1, depth + 1, m);
    } else if t[i] == ']' {
      if depth != 1 { ElementEndIsLocal(t, i + 1, depth - 1, m); }
    } else {
      ElementEndIsLocal(t, i + 1, depth, m);
    }
  }

  lemma {:induction false} RunEndIsLocal(t: string, i: nat)
    requires i <= |t| && RunEnd(t, i).Some?
    ensures i <= RunEnd(t, i).value <= |t|
    ensures RunEnd(t[..RunEnd(t, i).value], i) == RunEnd(t, i)
    decreases |t| - i
  {
    if i < |t| && t[i] == '[' {
      ElementEndIsInside(t, i, 0);
      var end := ElementEnd(t, i, 0).value;
      RunEndIsLocal(t, end);
      ElementEndIsLocal(t, i, 0, RunEnd(t, i).value);
    }
  }

  /** A text as the splitter reads it: a backslash and what follows it, if anything, are one token. */
  function Tokens(s: string): seq<string> {
    if s == "" then []
    else if s[0] == '\\' && |s| > 1 then [s[..2]] + Tokens(s[2..]) else [s[..1]] + Tokens(s[1..])
  }

  /** Opening less closing brackets. */
  function Level(ts: seq<string>): int {
    if ts == [] then 0 else (if ts[0] == "[" then 1 else if ts[0] == "]" then -1 else 0) + Level(ts[1..])
  }

  /** The level, from a start, stays above zero until the last token brings it there. */
  ghost predicate ClosesAtEnd(ts: seq<string>, from: int) {
    && ts != [] && from + Level(ts) == 0
    && forall n :: 0 < n < |ts| ==> from + Level(ts[..n]) > 0
  }

  /** One element: a bracketed text, its brackets outside escapes balanced at its end and not before. */
  ghost predicate IsElement(s: string) { s != "" && s[0] == '[' && ClosesAtEnd(Tokens(s), 0) }

  function Concat(parts: seq<string>): string { if parts == [] then "" else parts[0] + Concat(parts[1..]) }

  ghost predicate IsRun(s: string) {
    exists parts: seq<string> :: (forall k :: 0 <= k < |parts| ==> IsElement(parts[k])) && Concat(parts) == s
  }

  lemma ClosesAfter(t: string, ts: seq<string>, from: int)
    requires var step := if t == "[" then 1 else if t == "]" then -1 else 0;
             ClosesAtEnd(ts, from + step) && from + step > 0
    ensures ClosesAtEnd([t] + ts, from)
  {
    var all := [t] + ts;
    assert all[1..] == ts;
    forall n | 0 < n < |all| ensures from + Level(all[..n]) > 0 {
      assert all[..n][1..] == ts[..n - 1];
      if n == 1 { assert ts[..0] == []; }
    }
  }

  lemma {:induction false} ElementTokens(t: string, i: nat, depth: int, end: nat)
    requires ElementEnd(t, i, depth) == Some(end) && depth >= 0 && i < |t| && (depth == 0 ==> t[i] == '[')
    ensures i < end <= |t| && ClosesAtEnd(Tokens(t[i..end]), depth)
    decreases |t| - i
  {
    ElementEndIsInside(t, i, depth);
    var s := t[i..end];
    if t[i] == '\\' && i + 1 < |t| {
      ElementEndIsInside(t, i + 2, depth);
      assert s[2..] == t[i + 2..end];
      ElementTokens(t, i + 2, depth, end);
      ClosesAfter(s[..2], Tokens(s[2..]), depth);
    } else if t[i] == ']' && depth == 1 {
      assert s == "]" && s[..1] == "]" && s[1..] == "";
      assert Tokens(s) == ["]"] && ["]"][1..] == [];
    } else {
      var next := depth + if t[i] == '[' then 1 else if t[i] == ']' then -1 else 0;
      ElementEndIsInside(t, i + 1, next);
      assert s[1..] == t[i + 1..end] && s[..1] == [t[i]];
      ElementTokens(t, i + 1, next, end);
      ClosesAfter(s[..1], Tokens(s[1..]), depth);
    }
  }

  lemma ElementIs(t: string, i: nat, end: nat)
    requires i < |t| && t[i] == '[' && ElementEnd(t, i, 0) == Some(end)
    ensures i < end <= |t| && IsElement(t[i..end])
  {
    hide ElementEnd, ClosesAtEnd, Tokens;
    ElementTokens(t, i, 0, end);
    assert t[i..end][0] == '[';
  }

  lemma RunOpens(t: string, i: nat, end: nat)
    requires i < |t| && t[i] == '[' && RunEnd(t, i) == Some(end)
    ensures var m := ElementEnd(t, i, 0);
            m.Some? && i < m.value <= |t| && RunEnd(t, m.value) == Some(end) && IsElement(t[i..m.value])
  {
    ElementEndIsInside(t, i, 0);
    ElementIs(t, i, ElementEnd(t, i, 0).value);
  }

  lemma Slices(t: string, i: nat, m: nat, end: nat)
    requires i <= m <= end <= |t|
    ensures t[i..end] == t[i..m] + t[m..end]
  {
  }

  lemma {:induction false} RunOfElements(t: string, i: nat, end: nat)
    requires i <= |t| && RunEnd(t, i) == Some(end)
    ensures i <= end <= |t| && IsRun(t[i..end])
    decreases |t| - i
  {
    hide IsRun, IsElement, ElementEnd;
    if i < |t| && t[i] == '[' {
      RunOpens(t, i, end);
      hide RunEnd;
      var m := ElementEnd(t, i, 0).value;
      RunOfElements(t, m, end);
      RunCons(t[i..m], t[m..end]);
      Slices(t, i, m, end);
    } else {
      assert t[i..i] == "";
      EmptyRun();
    }
  }

  lemma EmptyRun()
    ensures IsRun("")
  {
    var none: seq<string> := [];
    assert Concat(none) == "";
  }

  lemma RunCons(element: string, run: string)
    requires IsElement(element) && IsRun(run)
    ensures IsRun(element + run)
  {
    hide IsElement;
    var parts: seq<string> :| (forall k :: 0 <= k < |parts| ==> IsElement(parts[k])) && Concat(parts) == run;
    var all := [element] + parts;
    assert all[1..] == parts && Concat(all) == element + run;
    assert forall k :: 0 <= k < |all| ==> IsElement(all[k]);
  }

  /** A non-empty SD is a run of elements, each with its brackets outside escapes balanced exactly at its
      end.  The tail is that SD, at most one space, and the message byte for byte; without the space,
      the message does not begin with another element. */
  lemma SplitIsExact(tail: string)
    requires SplitSpec(tail).sd != ""
    ensures var r := SplitSpec(tail);
            && (|| tail == r.sd + " " + r.message
                || (tail == r.sd + r.message && (r.message != "" ==> r.message[0] != ' ' && r.message[0] != '[')))
            && r.sd[0] == '[' && IsRun(r.sd)
  {
    var end := RunEnd(tail, 0).value;
    RunOfElements(tail, 0, end);
    hide IsRun;
    var sd := tail[..end];
    assert SplitSpec(tail).sd == sd == tail[0..end];
    RunStops(tail, 0);
    if end < |tail| && tail[end] == ' ' {
      assert tail == sd + " " + tail[end + 1..];
    } else {
      assert tail == sd + tail[end..];
    }
  }

  lemma {:induction false} RunStops(t: string, i: nat)
    requires RunEnd(t, i).Some? && i <= |t|
    ensures RunEnd(t, i).value < |t| ==> t[RunEnd(t, i).value] != '['
    decreases |t| - i
  {
    if i < |t| && t[i] == '[' {
      ElementEndIsInside(t, i, 0);
      RunStops(t, ElementEnd(t, i, 0).value);
    }
  }

  lemma ClosesBefore(t: string, ts: seq<string>, from: int)
    requires ClosesAtEnd([t] + ts, from)
    ensures var step := if t == "[" then 1 else if t == "]" then -1 else 0;
            if ts == [] then from + step == 0 else ClosesAtEnd(ts, from + step) && from + step > 0
  {
    var all := [t] + ts;
    assert all[1..] == ts && Level(all) == Level([t]) + Level(ts) by { assert [t][1..] == []; }
    forall n | 0 < n < |ts| ensures Level(all[..n + 1]) == Level([t]) + Level(ts[..n]) {
      assert all[..n + 1][1..] == ts[..n];
    }
    if ts != [] { assert all[..1] == [t]; }
  }

  /** The converse: where the brackets of a prefix balance, the scan ends. */
  lemma {:induction false} TokensEnd(t: string, i: nat, depth: int, m: nat)
    requires i < m <= |t| && depth >= 0 && (depth == 0 ==> t[i] == '[') && ClosesAtEnd(Tokens(t[i..m]), depth)
    ensures ElementEnd(t, i, depth) == Some(m)
    decreases |t| - i
  {
    var s := t[i..m];
    var long := t[i] == '\\' && i + 1 < m;
    var rest := if long then i + 2 else i + 1;
    assert s[rest - i..] == t[rest..m];
    ClosesBefore(s[..rest - i], Tokens(t[rest..m]), depth);
    if rest < m {
      var next := depth + if t[i] == '[' then 1 else if t[i] == ']' then -1 else 0;
      TokensEnd(t, rest, next, m);
    } else {
      assert t[rest..m] == "" && t[i] == ']' && depth == 1;
    }
  }

  /** An element that starts at k and does not close. */
  ghost predicate NeverCloses(t: string, k: nat) {
    && k < |t| && t[k] == '[' && IsRun(t[..k])
    && forall m :: k < m <= |t| ==> !IsElement(t[k..m])
  }

  /** What a tail splits into, without the scan.  After `-` and a space everything is the message, after
      `-` and anything else nothing; with neither `-` nor `[` in front the whole tail is.  Otherwise the SD
      is the longest run of elements, unless an element in it never closes: then both are empty. */
  ghost predicate SplitsAs(tail: string, r: Split) {
    if tail != "" && tail[0] == '-' then
      && r.sd == ""
      && (tail == "- " + r.message || (r.message == "" && (|tail| == 1 || tail[1] != ' ')))
    else if tail == "" || tail[0] != '[' then r == Split("", tail)
    else
      || (r.sd != "" && IsRun(r.sd)
          && (|| tail == r.sd + " " + r.message
              || (tail == r.sd + r.message && (r.message == "" || (r.message[0] != ' ' && r.message[0] != '[')))))
      || (r == Split("", "") && exists k :: NeverCloses(tail, k))
  }

  lemma SplitMeans(tail: string)
    ensures SplitsAs(tail, SplitSpec(tail))
  {
    var r := SplitSpec(tail);
    if tail != "" && tail[0] == '[' {
      if RunEnd(tail, 0).Some? {
        RunEndIsLocal(tail, 0);
        RunMoves(tail);
        SplitIsExact(tail);
        hide IsRun;
      } else {
        EmptyRun();
        assert tail[..0] == "";
        StuckRun(tail, 0);
        hide NeverCloses;
      }
    } else if "- " <= tail {
      assert tail == "- " + tail[2..];
    }
  }

  lemma RunMoves(t: string)
    requires t != "" && t[0] == '[' && RunEnd(t, 0).Some?
    ensures RunEnd(t, 0).value > 0
  {
    ElementEndIsInside(t, 0, 0);
    RunEndIsLocal(t, ElementEnd(t, 0, 0).value);
  }

  lemma {:induction false} StuckRun(t: string, i: nat)
    requires i <= |t| && RunEnd(t, i).None? && IsRun(t[..i])
    ensures exists k :: NeverCloses(t, k)
    decreases |t| - i
  {
    ElementEndIsInside(t, i, 0);
    hide IsRun;
    if ElementEnd(t, i, 0).None? {
      forall m | i < m <= |t| ensures !IsElement(t[i..m]) {
        if IsElement(t[i..m]) { TokensEnd(t, i, 0, m); }
      }
      assert NeverCloses(t, i);
    } else {
      var m := ElementEnd(t, i, 0).value;
      ElementIs(t, i, m);
      RunSnoc(t[..i], t[i..m]);
      assert t[..m] == t[..i] + t[i..m];
      StuckRun(t, m);
    }
  }

  lemma RunSnoc(run: string, element: string)
    requires IsRun(run) && IsElement(element)
    ensures IsRun(run + element)
  {
    hide IsElement;
    var parts: seq<string> :| (forall k :: 0 <= k < |parts| ==> IsElement(parts[k])) && Concat(parts) == run;
    ConcatSnoc(parts, element);
    var all := parts + [element];
    assert forall k :: 0 <= k < |all| ==> IsElement(all[k]);
  }

  lemma {:induction false} ConcatSnoc(parts: seq<string>, last: string)
    ensures Concat(parts + [last]) == Concat(parts) + last
    decreases |parts|
  {
    var all := parts + [last];
    if parts == [] {
      assert all[1..] == [];
    } else {
      assert all[1..] == parts[1..] + [last];
      ConcatSnoc(parts[1..], last);
    }
  }

  // ---------------------------------------------------------------- rendering

  datatype Param = Param(name: string, value: string)
  datatype Element = Element(id: string, params: seq<Param>)

  /** What section 6.3.3 of RFC 5424 keeps out of an SD-ID and a PARAM-NAME; `[` and `\` it lets in. */
  predicate IsName(s: string) {
    forall i :: 0 <= i < |s| ==> s[i] != '=' && s[i] != ' ' && s[i] != ']' && s[i] != '"'
  }

  predicate IsLegal(e: Element) { IsName(e.id) && forall i :: 0 <= i < |e.params| ==> IsName(e.params[i].name) }

  /** PARAM-VALUE escaping: a backslash before `"`, `\` and `]`. */
  function EscapeValue(v: string): string {
    if v == "" then "" else Escaped(v[0]) + EscapeValue(v[1..])
  }

  function Escaped(c: char): string { if c == '"' || c == '\\' || c == ']' then ['\\', c] else [c] }

  function ParamHead(name: string): string { " " + (name + "=\"") }

  function RenderParams(ps: seq<Param>): string {
    if ps == [] then "" else ParamHead(ps[0].name) + (EscapeValue(ps[0].value) + ("\"" + RenderParams(ps[1..])))
  }

  function RenderElement(e: Element): string { "[" + (e.id + (RenderParams(e.params) + "]")) }

  function Render(es: seq<Element>): string {
    if es == [] then "" else RenderElement(es[0]) + Render(es[1..])
  }

  /** How many `[` a rendered value holds. */
  function Opens(v: string): nat { if v == "" then 0 else (if v[0] == '[' then 1 else 0) + Opens(v[1..]) }

  /** How many `[` a name holds outside a backslash and what follows it. */
  function NameOpens(s: string): nat {
    if s == "" then 0
    else if s[0] == '\\' then if |s| == 1 then 0 else NameOpens(s[2..])
    else (if s[0] == '[' then 1 else 0) + NameOpens(s[1..])
  }

  /** A name's last backslash would take the next character with it. */
  predicate EndsUnpaired(s: string) {
    s != "" && if s[0] == '\\' then |s| == 1 || EndsUnpaired(s[2..]) else EndsUnpaired(s[1..])
  }

  function ParamOpens(ps: seq<Param>): nat {
    if ps == [] then 0 else NameOpens(ps[0].name) + Opens(ps[0].value) + ParamOpens(ps[1..])
  }

  /** The element's closing bracket is read as escaped: its id ends the element and leaves a backslash. */
  predicate Swallows(e: Element) { e.params == [] && EndsUnpaired(e.id) }

  /** How far above where it began an element leaves the depth. */
  function Raises(e: Element): nat {
    NameOpens(e.id) + ParamOpens(e.params) + if Swallows(e) then 1 else 0
  }

  function AllRaises(es: seq<Element>): nat {
    if es == [] then 0 else Raises(es[0]) + AllRaises(es[1..])
  }

  /** What the splitter can read back: no `[` in an id, name or value outside a backslash pair, and no
      closing bracket swallowed. */
  predicate ReadsBack(e: Element) {
    && NameOpens(e.id) == 0 && !Swallows(e)
    && forall i :: 0 <= i < |e.params| ==> NameOpens(e.params[i].name) == 0 && Opens(e.params[i].value) == 0
  }

  lemma {:induction false} NoParamOpens(ps: seq<Param>)
    ensures ParamOpens(ps) == 0 <==>
              forall i :: 0 <= i < |ps| ==> NameOpens(ps[i].name) == 0 && Opens(ps[i].value) == 0
    decreases |ps|
  {
    if ps != [] {
      NoParamOpens(ps[1..]);
      assert forall i :: 1 <= i < |ps| ==> ps[i] == ps[1..][i - 1];
    }
  }

  lemma {:induction false} NothingRaised(es: seq<Element>)
    ensures AllRaises(es) == 0 <==> forall k :: 0 <= k < |es| ==> ReadsBack(es[k])
    decreases |es|
  {
    if es != [] {
      NothingRaised(es[1..]);
      NoParamOpens(es[0].params);
      assert forall k :: 1 <= k < |es| ==> es[k] == es[1..][k - 1];
    }
  }

  ghost predicate At(t: string, i: nat, part: string) { i + |part| <= |t| && t[i..i + |part|] == part }

  lemma AtSplit(t: string, i: nat, a: string, b: string)
    requires At(t, i, a + b)
    ensures At(t, i, a) && At(t, i + |a|, b)
  {
    var s := t[i..i + |a + b|];
    assert s[..|a|] == a && s[|a|..] == b;
    assert s[..|a|] == t[i..i + |a|] && s[|a|..] == t[i + |a|..i + |a| + |b|];
  }

  lemma AtInside(t: string, i: nat, part: string)
    requires At(t, i, part)
    ensures i + |part| <= |t|
  {
  }

  lemma AtChar(t: string, i: nat, c: char)
    requires At(t, i, [c])
    ensures i < |t| && t[i] == c
  {
    assert t[i..i + 1][0] == t[i];
  }

  lemma AtFirst(t: string, i: nat, part: string)
    requires At(t, i, part) && part != ""
    ensures i < |t| && t[i] == part[0]
  {
    assert t[i..i + |part|][0] == t[i];
  }

  lemma AtBracket(t: string, i: nat, rest: string, depth: int)
    requires At(t, i, "[" + rest)
    ensures ElementEnd(t, i, depth) == ElementEnd(t, i + 1, depth + 1) && At(t, i + 1, rest)
  {
    AtSplit(t, i, "[", rest);
    AtChar(t, i, '[');
  }

  /** An ordinary character leaves the depth. */
  lemma ScansChar(t: string, i: nat, c: char, depth: int)
    requires At(t, i, [c]) && c != '[' && c != ']' && c != '\\'
    ensures ElementEnd(t, i, depth) == ElementEnd(t, i + 1, depth)
  {
    AtChar(t, i, c);
  }

  /** A name raises the depth by its `[` outside backslash pairs; a closing unpaired backslash takes the
      next character along. */
  lemma {:induction false} ScansName(t: string, i: nat, s: string, depth: int)
    requires At(t, i, s) && i + |s| < |t| && IsName(s)
    ensures ElementEnd(t, i, depth) ==
              ElementEnd(t, i + |s| + if EndsUnpaired(s) then 1 else 0, depth + NameOpens(s))
    decreases |s|
  {
    if s != "" {
      AtFirst(t, i, s);
      if s[0] == '\\' && |s| > 1 {
        AtRest(t, i, s, 2);
        ScansName(t, i + 2, s[2..], depth);
      } else if s[0] != '\\' {
        AtRest(t, i, s, 1);
        ScansName(t, i + 1, s[1..], depth + if s[0] == '[' then 1 else 0);
      }
    }
  }

  lemma AtRest(t: string, i: nat, s: string, n: nat)
    requires At(t, i, s) && n <= |s|
    ensures At(t, i + n, s[n..])
  {
    assert s == s[..n] + s[n..];
    AtSplit(t, i, s[..n], s[n..]);
  }

  /** After a name, an ordinary character is read through whether or not a backslash takes it along. */
  lemma ScansNameAnd(t: string, i: nat, s: string, c: char, depth: int)
    requires At(t, i, s) && At(t, i + |s|, [c]) && IsName(s) && c != '[' && c != ']' && c != '\\'
    ensures ElementEnd(t, i, depth) == ElementEnd(t, i + |s| + 1, depth + NameOpens(s))
  {
    AtChar(t, i + |s|, c);
    ScansName(t, i, s, depth);
    ScansChar(t, i + |s|, c, depth + NameOpens(s));
  }

  /** A rendered value raises the depth by its raw `[` and otherwise leaves it. */
  lemma {:induction false} ScansValue(t: string, i: nat, v: string, depth: int)
    requires At(t, i, EscapeValue(v)) && i + |EscapeValue(v)| < |t| && depth >= 1
    ensures ElementEnd(t, i, depth) == ElementEnd(t, i + |EscapeValue(v)|, depth + Opens(v))
    decreases |v|
  {
    if v != "" {
      var head := Escaped(v[0]);
      assert EscapeValue(v) == head + EscapeValue(v[1..]);
      AtSplit(t, i, head, EscapeValue(v[1..]));
      hide At, ElementEnd, Escaped;
      ScansEscaped(t, i, v[0], depth);
      ScansValue(t, i + |head|, v[1..], depth + if v[0] == '[' then 1 else 0);
    }
  }

  lemma ScansEscaped(t: string, i: nat, c: char, depth: int)
    requires At(t, i, Escaped(c))
    ensures ElementEnd(t, i, depth) ==
              ElementEnd(t, i + |Escaped(c)|, depth + if c == '[' then 1 else 0)
  {
    AtFirst(t, i, Escaped(c));
    hide At;
  }

  lemma ScansHead(t: string, i: nat, name: string, depth: int)
    requires At(t, i, ParamHead(name)) && IsName(name)
    ensures ElementEnd(t, i, depth) == ElementEnd(t, i + |ParamHead(name)|, depth + NameOpens(name))
  {
    HeadAt(t, i, name);
    hide At, IsName, NameOpens;
    ScansChar(t, i, ' ', depth);
    ScansNameAnd(t, i + 1, name, '=', depth);
    ScansChar(t, i + 1 + |name| + 1, '"', depth + NameOpens(name));
  }

  lemma HeadAt(t: string, i: nat, name: string)
    requires At(t, i, ParamHead(name))
    ensures At(t, i, " ") && At(t, i + 1, name) && At(t, i + 1 + |name|, "=") && At(t, i + 1 + |name| + 1, "\"")
    ensures |ParamHead(name)| == 1 + |name| + 2
  {
    hide At;
    assert "=\"" == "=" + "\"";
    AtSplit(t, i, " ", name + "=\"");
    AtSplit(t, i + 1, name, "=\"");
    AtSplit(t, i + 1 + |name|, "=", "\"");
  }

  lemma {:induction false} ScansParams(t: string, i: nat, ps: seq<Param>, depth: int)
    requires At(t, i, RenderParams(ps)) && depth >= 1
    requires forall k :: 0 <= k < |ps| ==> IsName(ps[k].name)
    ensures ElementEnd(t, i, depth) == ElementEnd(t, i + |RenderParams(ps)|, depth + ParamOpens(ps))
    decreases |ps|
  {
    hide ElementEnd, At, EscapeValue, Opens, ParamHead, IsName, NameOpens;
    if ps != [] {
      var head, v := ParamHead(ps[0].name), EscapeValue(ps[0].value);
      var inside := depth + NameOpens(ps[0].name);
      ParamAt(t, i, ps);
      ScansHead(t, i, ps[0].name, depth);
      ScansValue(t, i + |head|, ps[0].value, inside);
      ScansChar(t, i + |head| + |v|, '"', inside + Opens(ps[0].value));
      ScansParams(t, i + |head| + |v| + 1, ps[1..], inside + Opens(ps[0].value));
    }
  }

  /** Where the pieces of the first parameter sit. */
  lemma ParamAt(t: string, i: nat, ps: seq<Param>)
    requires ps != [] && At(t, i, RenderParams(ps))
    ensures var head, v, rest := ParamHead(ps[0].name), EscapeValue(ps[0].value), RenderParams(ps[1..]);
            && At(t, i, head) && At(t, i + |head|, v) && At(t, i + |head| + |v|, "\"")
                && At(t, i + |head| + |v| + 1, rest)
            && i + |head| + |v| < |t| && |RenderParams(ps)| == |head| + |v| + 1 + |rest|
  {
    hide At, EscapeValue, ParamHead;
    var head, v, rest := ParamHead(ps[0].name), EscapeValue(ps[0].value), RenderParams(ps[1..]);
    AtSplit(t, i, head, v + ("\"" + rest));
    AtSplit(t, i + |head|, v, "\"" + rest);
    AtSplit(t, i + |head| + |v|, "\"", rest);
    AtInside(t, i + |head| + |v|, "\"");
  }

  /** From the opening bracket to just before the closing one, or past a swallowed one. */
  lemma ScansElement(t: string, i: nat, e: Element, depth: int)
    requires At(t, i, RenderElement(e)) && IsLegal(e) && depth >= 0
    ensures var close := i + |RenderElement(e)| - 1;
            && 0 <= close < |t| && t[close] == ']'
            && ElementEnd(t, i, depth) ==
                 if Swallows(e) then ElementEnd(t, close + 1, depth + Raises(e))
                 else ElementEnd(t, close, depth + 1 + Raises(e))
  {
    ElementAt(t, i, e, depth);
    if e.params == [] {
      ScansBareElement(t, i, e, depth);
    } else {
      hide *;
      ScansFullElement(t, i, e, depth);
    }
  }

  lemma ScansBareElement(t: string, i: nat, e: Element, depth: int)
    requires At(t, i + 1, e.id) && IsName(e.id) && e.params == [] && i + 1 + |e.id| < |t|
    ensures ElementEnd(t, i + 1, depth + 1) ==
              ElementEnd(t, i + 1 + |e.id| + if Swallows(e) then 1 else 0,
                         depth + 1 + Raises(e) - if Swallows(e) then 1 else 0)
  {
    assert ParamOpens(e.params) == 0;
    hide ElementEnd, At, IsName, NameOpens, EndsUnpaired;
    ScansName(t, i + 1, e.id, depth + 1);
  }

  lemma FullElementParts(e: Element)
    requires IsLegal(e) && e.params != []
    ensures IsName(e.id) && (forall k :: 0 <= k < |e.params| ==> IsName(e.params[k].name)) && !Swallows(e)
    ensures Raises(e) == NameOpens(e.id) + ParamOpens(e.params)
  {
  }

  lemma ScansFullElement(t: string, i: nat, e: Element, depth: int)
    requires At(t, i + 1, e.id) && At(t, i + 1 + |e.id|, RenderParams(e.params)) && IsLegal(e) && depth >= 0
    requires e.params != []
    ensures !Swallows(e)
    ensures ElementEnd(t, i + 1, depth + 1) ==
              ElementEnd(t, i + 1 + |e.id| + |RenderParams(e.params)|, depth + 1 + Raises(e))
  {
    hide *;
    FullElementParts(e);
    ParamsStart(t, i + 1 + |e.id|, e.params);
    var after, inside := i + 1 + |e.id|, depth + 1 + NameOpens(e.id);
    ScansNameAnd(t, i + 1, e.id, ' ', depth + 1);
    ScansChar(t, after, ' ', inside);
    ScansParams(t, after, e.params, inside);
  }

  lemma ParamsStart(t: string, i: nat, ps: seq<Param>)
    requires ps != [] && At(t, i, RenderParams(ps))
    ensures At(t, i, " ")
  {
    ParamAt(t, i, ps);
    HeadAt(t, i, ps[0].name);
  }

  lemma ElementAt(t: string, i: nat, e: Element, depth: int)
    requires At(t, i, RenderElement(e))
    ensures var params, close := RenderParams(e.params), i + |RenderElement(e)| - 1;
            && ElementEnd(t, i, depth) == ElementEnd(t, i + 1, depth + 1)
            && At(t, i + 1, e.id) && At(t, i + 1 + |e.id|, params) && close == i + 1 + |e.id| + |params|
            && close < |t| && t[close] == ']'
  {
    var params := RenderParams(e.params);
    AtBracket(t, i, e.id + (params + "]"), depth);
    hide ElementEnd, RenderParams, At;
    AtSplit(t, i + 1, e.id, params + "]");
    AtSplit(t, i + 1 + |e.id|, params, "]");
    AtChar(t, i + 1 + |e.id| + |params|, ']');
  }

  lemma RunStep(t: string, i: nat)
    requires i < |t| && t[i] == '['
    ensures ElementEnd(t, i, 0).None? ==> RunEnd(t, i).None?
    ensures ElementEnd(t, i, 0).Some? ==>
              i < ElementEnd(t, i, 0).value <= |t| && RunEnd(t, i) == RunEnd(t, ElementEnd(t, i, 0).value)
    ensures RunEnd(t, i).Some? && ElementEnd(t, i, 0).Some? ==> RunEnd(t, i).value >= ElementEnd(t, i, 0).value
  {
    ElementEndIsInside(t, i, 0);
    if ElementEnd(t, i, 0).Some? && RunEnd(t, i).Some? { RunEndIsLocal(t, ElementEnd(t, i, 0).value); }
  }

  lemma SwallowsRaises(e: Element)
    ensures Swallows(e) ==> Raises(e) > 0
  {
  }

  lemma RunStopsHere(t: string, i: nat)
    ensures i >= |t| || t[i] != '[' ==> RunEnd(t, i) == Some(i)
  {
  }

  /** A closing bracket at depth one ends the element; at a greater depth the scan goes on. */
  lemma CloseAt(t: string, close: nat, depth: int)
    requires close < |t| && t[close] == ']' && depth >= 1
    ensures ElementEnd(t, close, depth) == if depth == 1 then Some(close + 1) else ElementEnd(t, close + 1, depth - 1)
  {
  }

  /** An element that raises nothing is one element of the run. */
  lemma RunPassesElement(t: string, i: nat, e: Element)
    requires At(t, i, RenderElement(e)) && IsLegal(e) && Raises(e) == 0
    ensures RunEnd(t, i) == RunEnd(t, i + |RenderElement(e)|)
  {
    ElementStarts(t, i, e);
    SwallowsRaises(e);
    hide *;
    ScansElement(t, i, e, 0);
    CloseAt(t, i + |RenderElement(e)| - 1, 1);
    RunStep(t, i);
  }

  lemma ElementStarts(t: string, i: nat, e: Element)
    requires At(t, i, RenderElement(e))
    ensures i < |t| && t[i] == '['
  {
    AtFirst(t, i, RenderElement(e));
  }

  /** When nothing is raised the run ends exactly where the rendered elements do. */
  lemma {:induction false} RunOfRendered(t: string, i: nat, es: seq<Element>)
    requires At(t, i, Render(es)) && AllRaises(es) == 0
    requires forall k :: 0 <= k < |es| ==> IsLegal(es[k])
    requires i + |Render(es)| < |t| ==> t[i + |Render(es)|] != '['
    ensures RunEnd(t, i) == Some(i + |Render(es)|)
    decreases |es|
  {
    hide At, IsLegal, ElementEnd, RenderElement, RunEnd, Raises;
    if es == [] {
      RunStopsHere(t, i);
    } else {
      AtSplit(t, i, RenderElement(es[0]), Render(es[1..]));
      RunPassesElement(t, i, es[0]);
      RunOfRendered(t, i + |RenderElement(es[0])|, es[1..]);
    }
  }

  /** Above depth zero an element never ends the scan, and leaves the depth raised. */
  lemma PassesElement(t: string, i: nat, e: Element, depth: int)
    requires At(t, i, RenderElement(e)) && IsLegal(e) && depth >= 0 && depth + Raises(e) > 0
    ensures ElementEnd(t, i, depth) == ElementEnd(t, i + |RenderElement(e)|, depth + Raises(e))
  {
    hide *;
    ScansElement(t, i, e, depth);
    if !Swallows(e) { CloseAt(t, i + |RenderElement(e)| - 1, depth + 1 + Raises(e)); }
  }

  /** Once the depth has been raised, no later element of the run brings it back. */
  lemma {:induction false} StaysOpen(t: string, i: nat, es: seq<Element>, depth: int)
    requires At(t, i, Render(es)) && depth >= 1
    requires forall k :: 0 <= k < |es| ==> IsLegal(es[k])
    ensures ElementEnd(t, i, depth) == ElementEnd(t, i + |Render(es)|, depth + AllRaises(es))
    decreases |es|
  {
    hide At, ElementEnd, RenderElement, Raises, IsLegal;
    if es != [] {
      AtSplit(t, i, RenderElement(es[0]), Render(es[1..]));
      PassesElement(t, i, es[0], depth);
      StaysOpen(t, i + |RenderElement(es[0])|, es[1..], depth + Raises(es[0]));
    }
  }

  /** When something is raised, the run ends past the rendered elements or not at all. */
  lemma {:induction false} RunOfRaised(t: string, i: nat, es: seq<Element>)
    requires At(t, i, Render(es)) && AllRaises(es) > 0
    requires forall k :: 0 <= k < |es| ==> IsLegal(es[k])
    ensures RunEnd(t, i).None? || RunEnd(t, i).value > i + |Render(es)|
    decreases |es|
  {
    hide At, RunEnd, ElementEnd, Raises, Swallows;
    var head, rest := RenderElement(es[0]), Render(es[1..]);
    AtSplit(t, i, head, rest);
    AtFirst(t, i, head);
    hide RenderElement, IsLegal;
    RunStep(t, i);
    if Raises(es[0]) == 0 {
      ScansElement(t, i, es[0], 0);
      SwallowsRaises(es[0]);
      CloseAt(t, i + |head| - 1, 1);
      RunOfRaised(t, i + |head|, es[1..]);
    } else {
      PassesElement(t, i, es[0], 0);
      ElementEndIsInside(t, i, 0);
      StaysOpen(t, i + |head|, es[1..], Raises(es[0]));
      ElementEndIsInside(t, i + |Render(es)|, AllRaises(es));
    }
  }

  /** A rendered region and its message come back exactly when no id, name or value holds a `[` outside
      a backslash pair and no element without parameters has an id that leaves an unpaired backslash:
      RFC 5424 allows both, and the splitter misreads both. */
  lemma SplitRoundTripIff(es: seq<Element>, msg: string)
    requires es != [] && forall k :: 0 <= k < |es| ==> IsLegal(es[k])
    ensures SplitSpec(Render(es) + " " + msg) == Split(Render(es), msg)
       <==> forall k :: 0 <= k < |es| ==> ReadsBack(es[k])
  {
    hide *;
    NothingRaised(es);
    RenderStarts(es);
    RegionSits(Render(es), msg);
    SplitByRun(Render(es), msg);
    RegionRun(es, Render(es) + " " + msg);
  }

  /** The run ends exactly at the region when nothing is raised. */
  lemma RegionRun(es: seq<Element>, tail: string)
    requires es != [] && forall k :: 0 <= k < |es| ==> IsLegal(es[k])
    requires At(tail, 0, Render(es)) && |Render(es)| < |tail| && tail[|Render(es)|] == ' '
    ensures RunEnd(tail, 0) == Some(|Render(es)|) <==> AllRaises(es) == 0
  {
    hide *;
    if AllRaises(es) == 0 {
      RunOfRendered(tail, 0, es);
    } else {
      RunOfRaised(tail, 0, es);
    }
  }

  /** A legal id with a `[`: the region never closes and the message is lost. */
  lemma BracketInIdIsMisread()
    ensures var es := [Element("a[b", [])];
            IsLegal(es[0]) && Render(es) + " m" == "[a[b] m" && SplitSpec("[a[b] m") == Split("", "")
  {
    var t := "[a[b] m";
    RendersAs("a[b");
    hide Render;
    assert ElementEnd(t, 2, 1) == ElementEnd(t, 4, 2) == ElementEnd(t, 5, 1);
    assert ElementEnd(t, 5, 1) == ElementEnd(t, 7, 1) == None;
  }

  /** A legal id that ends in a backslash: the closing bracket is read as escaped. */
  lemma BackslashInIdIsMisread()
    ensures var es := [Element("a\\", [])];
            IsLegal(es[0]) && Render(es) + " m" == "[a\\] m" && SplitSpec("[a\\] m") == Split("", "")
  {
    var t := "[a\\] m";
    RendersAs("a\\");
    hide Render;
    assert ElementEnd(t, 2, 1) == ElementEnd(t, 4, 1) == ElementEnd(t, 6, 1) == None;
  }

  /** A legal value with a `[`. */
  lemma BracketInValueIsMisread()
    ensures var es := [Element("a", [Param("n", "[")])];
            IsLegal(es[0]) && Render(es) + " m" == "[a n=\"[\"] m" && SplitSpec("[a n=\"[\"] m") == Split("", "")
  {
    var t := "[a n=\"[\"] m";
    ParamRendersAs();
    hide Render;
    assert ElementEnd(t, 0, 0) == ElementEnd(t, 2, 1) == ElementEnd(t, 4, 1) == ElementEnd(t, 6, 1);
    assert ElementEnd(t, 6, 1) == ElementEnd(t, 8, 2) == ElementEnd(t, 9, 1) == ElementEnd(t, 11, 1) == None;
  }

  lemma RendersAs(id: string)
    ensures Render([Element(id, [])]) == "[" + id + "]"
  {
    var es := [Element(id, [])];
    assert es[1..] == [] && RenderParams([]) == "";
  }

  lemma ParamRendersAs()
    ensures Render([Element("a", [Param("n", "[")])]) == "[a n=\"[\"]"
  {
    var ps := [Param("n", "[")];
    var es := [Element("a", ps)];
    assert es[1..] == [] && ps[1..] == [] && "["[1..] == "";
    assert EscapeValue("[") == "[";
    assert RenderParams(ps) == " n=\"[\"";
  }

  lemma RenderStarts(es: seq<Element>)
    requires es != []
    ensures Render(es) != "" && Render(es)[0] == '['
  {
    hide RenderParams;
    assert RenderElement(es[0])[0] == '[';
  }

  lemma RegionSits(sd: string, msg: string)
    ensures At(sd + " " + msg, 0, sd) && (sd + " " + msg)[|sd|] == ' '
  {
  }

  /** A bracketed region and its message are split apart exactly when the run ends at the region. */
  lemma SplitByRun(sd: string, msg: string)
    requires sd != "" && sd[0] == '['
    ensures SplitSpec(sd + " " + msg) == Split(sd, msg) <==> RunEnd(sd + " " + msg, 0) == Some(|sd|)
  {
    hide RunEnd;
    var tail := sd + " " + msg;
    assert tail[..|sd|] == sd && tail[|sd| + 1..] == msg && tail[0] == '[' && tail[|sd|] == ' ';
    var end := RunEnd(tail, 0);
    if end.Some? && end.value <= |tail| {
      assert |tail[..end.value]| == end.value;
    }
  }

  // ---------------------------------------------------------------- the header

  /** The digits of `\d` in ASCII. */
  predicate IsDigit(c: char) { '0' <= c <= '9' }
  predicate IsToken(s: string) { s != "" && forall i :: 0 <= i < |s| ==> !IsSpace(s[i]) }
  predicate Digits(s: string) { forall i :: 0 <= i < |s| ==> IsDigit(s[i]) }

  datatype Taken = Taken(token: string, rest: string)

  function SpaceAt(s: string): (i: nat)
    ensures i <= |s| && (forall j :: 0 <= j < i ==> !IsSpace(s[j])) && (i < |s| ==> IsSpace(s[i]))
  {
    if s == "" || IsSpace(s[0]) then 0 else 1 + SpaceAt(s[1..])
  }

  /** `(\S+) ` at the head of a text. */
  function TakeToken(s: string): Option<Taken> {
    var i := SpaceAt(s);
    if i == 0 || i == |s| || s[i] != ' ' then None else Some(Taken(s[..i], s[i + 1..]))
  }

  lemma TakesToken(token: string, rest: string)
    requires IsToken(token)
    ensures TakeToken(token + " " + rest) == Some(Taken(token, rest))
  {
    var s := token + " " + rest;
    var i := SpaceAt(s);
    assert IsSpace(' ');
    hide IsSpace;
    assert s[|token|] == ' ' && forall j :: 0 <= j < |token| ==> s[j] == token[j];
    assert i == |token|;
    assert s[..i] == token && s[i + 1..] == rest;
  }

  datatype Header = Header(timestamp: string, hostname: string, app: string, procid: string, msgid: string)

  /** The parsed fields a stored line shows. */
  datatype Parsed = Parsed(senderTs: string, program: string, split: Split)

  function Program(app: string, procid: string): string {
    if procid != "-" && procid != "" then app + "[" + procid + "]" else app
  }

  /** VERSION SP TIMESTAMP SP HOSTNAME SP APP-NAME SP PROCID SP MSGID SP rest; None when the text does
      not have that shape. */
  function ParseRfc5424(s: string): Option<Parsed> {
    var v := TakeToken(s);
    if v.None? || |v.value.token| > 2 || !Digits(v.value.token) then None
    else
      var ts := TakeToken(v.value.rest);
      if ts.None? then None else
      var host := TakeToken(ts.value.rest);
      if host.None? then None else
      var app := TakeToken(host.value.rest);
      if app.None? then None else
      var procid := TakeToken(app.value.rest);
      if procid.None? then None else
      var msgid := TakeToken(procid.value.rest);
      if msgid.None? then None else
      Some(Parsed(if ts.value.token == "-" then "" else ts.value.token,
                  Program(app.value.token, procid.value.token), SplitSpec(msgid.value.rest)))
  }

  function StripCrLf(s: string): string {
    if s != "" && (s[|s| - 1] == '\r' || s[|s| - 1] == '\n') then StripCrLf(s[..|s| - 1]) else s
  }

  /** `<PRI>`: one to three digits. */
  function TakePri(s: string): Option<Taken> {
    if s == "" || s[0] != '<' then None
    else if |s| > 2 && IsDigit(s[1]) && s[2] == '>' then Some(Taken(s[1..2], s[3..]))
    else if |s| > 3 && IsDigit(s[1]) && IsDigit(s[2]) && s[3] == '>' then Some(Taken(s[1..3], s[4..]))
    else if |s| > 4 && IsDigit(s[1]) && IsDigit(s[2]) && IsDigit(s[3]) && s[4] == '>' then Some(Taken(s[1..4], s[5..]))
    else None
  }

  datatype Datagram = Malformed | Rfc5424(pri: string, parsed: Parsed) | Rfc3164(pri: string, rest: string)

  /** The dispatch of `parse`; the RFC 3164 body is left unparsed. */
  function Parse(raw: string): Datagram {
    var pri := TakePri(StripCrLf(raw));
    if pri.None? then Malformed
    else
      var p := ParseRfc5424(pri.value.rest);
      if p.Some? then Rfc5424(pri.value.token, p.value) else Rfc3164(pri.value.token, pri.value.rest)
  }

  // ---------------------------------------------------------------- the whole line

  predicate GoodHeader(h: Header) {
    IsToken(h.timestamp) && IsToken(h.hostname) && IsToken(h.app) && IsToken(h.procid) && IsToken(h.msgid)
  }

  function HeaderText(version: string, h: Header, rest: string): string {
    version + " " + (h.timestamp + " " + (h.hostname + " " + (h.app + " " + (h.procid + " " + (h.msgid + " " + rest)))))
  }

  lemma HeaderRoundTrip(version: string, h: Header, rest: string)
    requires 1 <= |version| <= 2 && GoodHeader(h)
    requires forall i :: 0 <= i < |version| ==> '0' <= version[i] <= '9'
    ensures var p := ParseRfc5424(HeaderText(version, h, rest));
            && p.Some? && SplitsAs(rest, p.value.split)
            && p == Some(Parsed(if h.timestamp == "-" then "" else h.timestamp,
                                if h.procid == "-" then h.app else h.app + "[" + h.procid + "]", SplitSpec(rest)))
  {
    var m := h.msgid + " " + rest;
    var p := h.procid + " " + m;
    var a := h.app + " " + p;
    var o := h.hostname + " " + a;
    var t := h.timestamp + " " + o;
    assert IsToken(version);
    SplitMeans(rest);
    hide TakeToken, SplitSpec, SplitsAs;
    TakesToken(version, t);
    TakesToken(h.timestamp, o);
    TakesToken(h.hostname, a);
    TakesToken(h.app, p);
    TakesToken(h.procid, m);
    TakesToken(h.msgid, rest);
  }

  /** Any printable ASCII text, as RFC 5424 has every header field, is one token. */
  lemma PrintableIsToken(s: string)
    requires s != "" && forall i :: 0 <= i < |s| ==> 33 <= s[i] as int <= 126
    ensures IsToken(s)
  {
  }

  // ---------------------------------------------------------------- what any datagram parses to

  predicate IsLineEnd(c: char) { c == '\r' || c == '\n' }

  /** The text of a datagram without the line ends that close it. */
  ghost predicate IsStripped(raw: string, text: string) {
    && text <= raw && (forall i :: |text| <= i < |raw| ==> IsLineEnd(raw[i]))
    && (text == "" || (text[|text| - 1] != '\r' && text[|text| - 1] != '\n'))
  }

  /** It begins with one to three digits in angle brackets. */
  ghost predicate HasPri(text: string, pri: string) {
    && 1 <= |pri| <= 3 && (forall i :: 0 <= i < |pri| ==> '0' <= pri[i] <= '9')
    && "<" + pri + ">" <= text
  }

  /** A version of one or two digits, five tokens and the rest, one space after each. */
  ghost predicate HasShape(body: string, version: string, h: Header, tail: string) {
    && 1 <= |version| <= 2 && (forall i :: 0 <= i < |version| ==> '0' <= version[i] <= '9')
    && GoodHeader(h) && body == HeaderText(version, h, tail)
  }

  /** What a datagram's text is parsed to. */
  ghost predicate ParsesAs(text: string, d: Datagram) {
    match d
    case Malformed => forall pri :: !HasPri(text, pri)
    case Rfc3164(pri, rest) =>
      && HasPri(text, pri) && text == "<" + pri + ">" + rest
      && forall version, h, tail :: !HasShape(rest, version, h, tail)
    case Rfc5424(pri, parsed) => HasPri(text, pri) && ParsedFrom(text[|pri| + 2..], parsed)
  }

  /** The sent timestamp unless it is `-`, the program with its process id unless that is `-`, and the split
      of the rest. */
  ghost predicate ParsedFrom(body: string, parsed: Parsed) {
    exists version, h, tail ::
      && HasShape(body, version, h, tail) && SplitsAs(tail, parsed.split)
      && parsed.senderTs == (if h.timestamp == "-" then "" else h.timestamp)
      && parsed.program == if h.procid == "-" then h.app else h.app + "[" + h.procid + "]"
  }

  /** Every datagram: malformed exactly without a priority, of the RFC 5424 form exactly when what follows
      it has that shape. */
  lemma ParseMeans(raw: string) returns (text: string)
    ensures IsStripped(raw, text) && ParsesAs(text, Parse(raw))
  {
    hide *;
    text := StripCrLf(raw);
    Strips(raw);
    PriMeans(text);
    Dispatch(raw);
    if Parse(raw).Malformed? {
      AsMalformed(text);
    } else {
      var pri := TakePri(text).value;
      HeaderMeans(pri.rest);
      PriIsHead(text, pri.token, pri.rest);
      if Parse(raw).Rfc5424? {
        AsRfc5424(text, pri.token, ParseRfc5424(pri.rest).value);
      } else {
        AsRfc3164(text, pri.token, pri.rest);
      }
    }
  }

  lemma Dispatch(raw: string)
    ensures var pri := TakePri(StripCrLf(raw));
            if pri.None? then Parse(raw) == Malformed
            else
              var p := ParseRfc5424(pri.value.rest);
              Parse(raw) == if p.Some? then Datagram.Rfc5424(pri.value.token, p.value)
                            else Rfc3164(pri.value.token, pri.value.rest)
  {
    hide StripCrLf, TakePri, ParseRfc5424;
  }

  lemma AsMalformed(text: string)
    requires forall pri :: !HasPri(text, pri)
    ensures ParsesAs(text, Malformed)
  {
  }

  lemma AsRfc3164(text: string, pri: string, rest: string)
    requires HasPri(text, pri) && text == "<" + pri + ">" + rest
    requires forall version, h, tail :: !HasShape(rest, version, h, tail)
    ensures ParsesAs(text, Rfc3164(pri, rest))
  {
    hide HasPri, HasShape;
  }

  lemma AsRfc5424(text: string, pri: string, parsed: Parsed)
    requires HasPri(text, pri) && ParsedFrom(text[|pri| + 2..], parsed)
    ensures ParsesAs(text, Datagram.Rfc5424(pri, parsed))
  {
    hide HasPri, ParsedFrom;
  }

  lemma PriIsHead(text: string, pri: string, rest: string)
    requires text == "<" + pri + ">" + rest
    ensures text[|pri| + 2..] == rest
  {
  }

  lemma {:induction false} Strips(raw: string)
    ensures IsStripped(raw, StripCrLf(raw))
    decreases |raw|
  {
    if raw != "" && (raw[|raw| - 1] == '\r' || raw[|raw| - 1] == '\n') { Strips(raw[..|raw| - 1]); }
  }

  /** The priority taken is the one that is there, and it is there whenever there is one. */
  lemma PriMeans(text: string)
    ensures var pri := TakePri(text);
            && (pri.None? ==> forall p :: !HasPri(text, p))
            && (pri.Some? ==> HasPri(text, pri.value.token) && text == "<" + pri.value.token + ">" + pri.value.rest)
  {
    if TakePri(text).Some? { PriTaken(text); }
    hide TakePri, HasPri;
    forall p | HasPri(text, p) ensures TakePri(text).Some? {
      PriIsTaken(text, p);
    }
  }

  lemma PriTaken(text: string)
    requires TakePri(text).Some?
    ensures var pri := TakePri(text).value; HasPri(text, pri.token) && text == "<" + pri.token + ">" + pri.rest
  {
    var pri := TakePri(text).value;
    var n := |pri.token|;
    assert pri.token == text[1..1 + n] && pri.rest == text[n + 2..] && text[n + 1] == '>';
    assert text == "<" + pri.token + ">" + pri.rest;
    hide TakePri;
  }

  lemma PriIsTaken(text: string, p: string)
    requires HasPri(text, p)
    ensures TakePri(text).Some?
  {
    var rest := text[|p| + 2..];
    assert text == "<" + p + ">" + rest;
    TakesPri(p, rest);
  }

  lemma TokenTaken(s: string)
    requires TakeToken(s).Some?
    ensures var t := TakeToken(s).value; IsToken(t.token) && s == t.token + " " + t.rest
  {
    hide IsSpace;
  }

  lemma HeaderMeans(body: string)
    ensures var p := ParseRfc5424(body);
            && (p.None? ==> forall version, h, tail :: !HasShape(body, version, h, tail))
            && (p.Some? ==> ParsedFrom(body, p.value))
  {
    hide GoodHeader, ParseRfc5424, SplitsAs, SplitSpec;
    if ParseRfc5424(body).Some? {
      var version, h, tail := HeaderTaken(body);
      HeaderRoundTrip(version, h, tail);
      assert HasShape(body, version, h, tail);
    } else {
      forall version, h, tail ensures !HasShape(body, version, h, tail) {
        if HasShape(body, version, h, tail) { HeaderRoundTrip(version, h, tail); }
      }
    }
  }

  lemma HeaderTaken(body: string) returns (version: string, h: Header, tail: string)
    requires ParseRfc5424(body).Some?
    ensures HasShape(body, version, h, tail)
  {
    hide TakeToken, SplitSpec, Program, IsToken;
    TokenTaken(body);
    var v := TakeToken(body).value;
    TokenTaken(v.rest);
    var t := TakeToken(v.rest).value;
    TokenTaken(t.rest);
    var o := TakeToken(t.rest).value;
    TokenTaken(o.rest);
    var a := TakeToken(o.rest).value;
    TokenTaken(a.rest);
    var p := TakeToken(a.rest).value;
    TokenTaken(p.rest);
    var m := TakeToken(p.rest).value;
    version, h, tail := v.token, Header(t.token, o.token, a.token, p.token, m.token), m.rest;
    TokenIsSome(version);
    hide ParseRfc5424;
  }

  lemma TokenIsSome(s: string)
    requires IsToken(s)
    ensures s != ""
  {
  }

  lemma {:induction false} StripsOnlyTheEnd(a: string, b: string)
    requires a != "" && a[|a| - 1] == ' '
    ensures StripCrLf(a + b) == a + StripCrLf(b)
    decreases |b|
  {
    if b == "" {
      assert a + b == a;
    } else if b[|b| - 1] == '\r' || b[|b| - 1] == '\n' {
      assert (a + b)[..|a + b| - 1] == a + b[..|b| - 1];
      StripsOnlyTheEnd(a, b[..|b| - 1]);
    }
  }

  /** The STRUCTURED-DATA field as sent: the rendered elements, or `-` for none. */
  function SdText(es: seq<Element>): string { if es == [] then "-" else Render(es) }

  function LineHead(pri: string, version: string, h: Header, es: seq<Element>): string {
    "<" + pri + ">" + HeaderText(version, h, SdText(es) + " ")
  }

  /** A whole RFC 5424 line comes back: timestamp, program with its process id, the SD region as sent
      (empty for `-`), and the message without its closing line ends, exactly when every element reads
      back. */
  lemma LineRoundTripIff(pri: string, version: string, h: Header, es: seq<Element>, msg: string, message: string)
    requires 1 <= |pri| <= 3 && 1 <= |version| <= 2 && GoodHeader(h) && IsStripped(msg, message)
    requires forall i :: 0 <= i < |pri| ==> '0' <= pri[i] <= '9'
    requires forall i :: 0 <= i < |version| ==> '0' <= version[i] <= '9'
    requires forall k :: 0 <= k < |es| ==> IsLegal(es[k])
    ensures Parse(LineHead(pri, version, h, es) + msg) ==
              Rfc5424(pri, Parsed(if h.timestamp == "-" then "" else h.timestamp,
                                  if h.procid == "-" then h.app else h.app + "[" + h.procid + "]",
                                  Split(if es == [] then "" else Render(es), message)))
       <==> forall k :: 0 <= k < |es| ==> ReadsBack(es[k])
  {
    var head := LineHead(pri, version, h, es);
    StrippedIs(msg, message);
    var rest := SdText(es) + " " + message;
    LineHeadIs(pri, version, h, es, message);
    StripsOnlyTheEnd(head, msg);
    TakesPri(pri, HeaderText(version, h, rest));
    HeaderRoundTrip(version, h, rest);
    hide Parse, HeaderText, LineHead, StripCrLf, ParseRfc5424, SplitSpec, TakePri;
    SdRoundTripIff(es, message);
    ParseIs(head + msg, pri, HeaderText(version, h, rest));
  }

  lemma StrippedIs(raw: string, text: string)
    requires IsStripped(raw, text)
    ensures StripCrLf(raw) == text
  {
    Strips(raw);
    var s := StripCrLf(raw);
    assert text != "" ==> raw[|text| - 1] == text[|text| - 1];
    assert s != "" ==> raw[|s| - 1] == s[|s| - 1];
    assert |s| == |text|;
    assert s == raw[..|s|] && text == raw[..|text|];
  }

  lemma NilSd(message: string)
    ensures SplitSpec("-" + " " + message) == Split("", message)
  {
    var tail := "-" + " " + message;
    assert tail[..2] == "- " && tail[2..] == message;
  }

  lemma SdRoundTripIff(es: seq<Element>, message: string)
    requires forall k :: 0 <= k < |es| ==> IsLegal(es[k])
    ensures SplitSpec(SdText(es) + " " + message) == Split(if es == [] then "" else Render(es), message) <==>
        forall k :: 0 <= k < |es| ==> ReadsBack(es[k])
  {
    if es == [] {
      NilSd(message);
    } else {
      hide SplitSpec, Render, ReadsBack;
      SplitRoundTripIff(es, message);
    }
  }

  lemma ParseIs(raw: string, pri: string, body: string)
    requires TakePri(StripCrLf(raw)) == Some(Taken(pri, body)) && ParseRfc5424(body).Some?
    ensures Parse(raw) == Rfc5424(pri, ParseRfc5424(body).value)
  {
  }

  lemma LineHeadIs(pri: string, version: string, h: Header, es: seq<Element>, message: string)
    ensures var head := LineHead(pri, version, h, es);
            && head != "" && head[|head| - 1] == ' '
            && head + message == "<" + pri + ">" + HeaderText(version, h, SdText(es) + " " + message)
  {
  }

  lemma TakesPri(pri: string, rest: string)
    requires 1 <= |pri| <= 3 && Digits(pri)
    ensures TakePri("<" + pri + ">" + rest) == Some(Taken(pri, rest))
  {
    var s := "<" + pri + ">" + rest;
    assert s[1..1 + |pri|] == pri && s[2 + |pri|..] == rest;
    assert forall i :: 0 <= i < |pri| ==> s[1 + i] == pri[i];
    assert s[1 + |pri|] == '>';
  }
}
