/** The configured DNS name: what validation accepts, the query built from it, and the record label
    under its zone.  Lower-casing maps ASCII capitals and the Kelvin sign, the only other character whose
    lower case is ASCII; any other character stands for its own lower case, which validation refuses
    as it refuses the character. */
module Hostname {
  import opened Common
  import opened DnsMessage

  const KELVIN := '\U{212A}'

  /** The characters a valid name is made of, before lower-casing. */
  predicate IsText(c: char) { c as int < 128 || c == KELVIN }

  predicate AllText(s: string) { forall i :: 0 <= i < |s| ==> IsText(s[i]) }

  type Text = s: string | AllText(s) witness ""

  // ---------------------------------------------------------------- string operations

  function StripLeft(s: string): string { if s != "" && IsSpace(s[0]) then StripLeft(s[1..]) else s }

  function StripRight(s: string): string {
    if s != "" && IsSpace(s[|s| - 1]) then StripRight(s[..|s| - 1]) else s
  }

  function Strip(s: string): string { StripRight(StripLeft(s)) }

  function LowerChar(c: char): char {
    if 'A' <= c <= 'Z' then (c as int + 32) as char else if c == KELVIN then 'k' else c
  }

  function Lower(s: string): (r: string)
    ensures |r| == |s|
  {
    seq(|s|, i requires 0 <= i < |s| => LowerChar(s[i]))
  }

  predicate EndsWithDot(s: string) { s != "" && s[|s| - 1] == '.' }

  /** The normalised wire form: stripped, lower case, without one trailing dot. */
  function Normalize(s: string): string {
    var lowered := Lower(Strip(s));
    if EndsWithDot(lowered) then lowered[..|lowered| - 1] else lowered
  }

  function StripDots(s: string): (r: string)
    ensures AllText(s) ==> AllText(r)
  {
    if EndsWithDot(s) then StripDots(s[..|s| - 1]) else s
  }

  function Split(s: string): (r: seq<string>)
    ensures r != [] && (AllText(s) ==> forall i :: 0 <= i < |r| ==> AllText(r[i]))
  {
    if s == "" then [""]
    else
      var rest := Split(s[1..]);
      if s[0] == '.' then [""] + rest else [[s[0]] + rest[0]] + rest[1..]
  }

  // ---------------------------------------------------------------- validation

  predicate IsAlnum(c: char) { 'a' <= c <= 'z' || '0' <= c <= '9' }

  /** Letters, digits and hyphens, with no hyphen at either end. */
  predicate IsLdh(part: string) {
    && part != "" && IsAlnum(part[0]) && IsAlnum(part[|part| - 1])
    && forall i :: 0 <= i < |part| ==> IsAlnum(part[i]) || part[i] == '-'
  }

  /** The label pattern as it matches: its final `$` also matches before one closing line feed. */
  predicate MatchesPattern(part: string) {
    IsLdh(part) || (|part| > 1 && part[|part| - 1] == '\n' && IsLdh(part[..|part| - 1]))
  }

  predicate GoodLabel(part: string) { 1 <= |part| <= 63 && MatchesPattern(part) }

  predicate Accepts(name: string) {
    var norm := Normalize(name);
    norm != "" && |norm| <= 253 && forall i :: 0 <= i < |Split(norm)| ==> GoodLabel(Split(norm)[i])
  }

  // ---------------------------------------------------------------- acceptance, spelled out

  function Join(labels: seq<string>): string
    requires labels != []
  {
    if |labels| == 1 then labels[0] else labels[0] + "." + Join(labels[1..])
  }

  /** `s` spells `t` in lower case, the Kelvin sign as `k`. */
  ghost predicate Spells(s: string, t: string) {
    && |s| == |t|
    && forall i :: 0 <= i < |s| ==>
         if 'A' <= t[i] <= 'Z' then s[i] as int == t[i] as int + 32
         else if t[i] == '\U{212A}' then s[i] == 'k'
         else s[i] == t[i]
  }

  /** One to 63 letters, digits and hyphens, neither end a hyphen; a line feed may follow the rest. */
  ghost predicate IsLabel(part: string) {
    && 1 <= |part| <= 63
    && var n := if part[|part| - 1] == '\n' then |part| - 1 else |part|;
       && n > 0 && part[0] != '-' && part[n - 1] != '-'
       && forall i :: 0 <= i < n ==> 'a' <= part[i] <= 'z' || '0' <= part[i] <= '9' || part[i] == '-'
  }

  ghost predicate AllSpace(s: string) { forall i :: 0 <= i < |s| ==> IsSpace(s[i]) }

  ghost predicate NoSpaceAtEnds(t: string) { t != "" && !IsSpace(t[0]) && !IsSpace(t[|t| - 1]) }

  /** White space, then the labels with dots between them and perhaps one more dot, in any case, at most
      253 characters without that dot, then white space. */
  ghost predicate IsHostname(name: string, pre: string, t: string, post: string, labels: seq<string>) {
    && name == pre + t + post && AllSpace(pre) && AllSpace(post) && NoSpaceAtEnds(t)
    && labels != [] && (forall i :: 0 <= i < |labels| ==> IsLabel(labels[i])) && |Join(labels)| <= 253
    && (Spells(Join(labels), t) || Spells(Join(labels) + ".", t))
  }

  lemma GoodLabelIsLabel(part: string)
    ensures GoodLabel(part) <==> IsLabel(part)
  {
    if part != "" && part[|part| - 1] == '\n' {
      var front := part[..|part| - 1];
      assert forall i :: 0 <= i < |front| ==> front[i] == part[i];
    }
  }

  lemma LowerSpells(s: string, t: string)
    ensures s == Lower(t) <==> Spells(s, t)
  {
    if Spells(s, t) {
      forall i | 0 <= i < |s| ensures s[i] == Lower(t)[i] {}
    }
  }

  lemma {:induction false} StripLeftIs(pre: string, t: string)
    requires AllSpace(pre) && (t == "" || !IsSpace(t[0]))
    ensures StripLeft(pre + t) == t
    decreases |pre|
  {
    hide IsSpace;
    if pre == "" {
      assert pre + t == t;
    } else {
      assert (pre + t)[1..] == pre[1..] + t;
      StripLeftIs(pre[1..], t);
    }
  }

  lemma {:induction false} StripRightIs(t: string, post: string)
    requires AllSpace(post) && (t == "" || !IsSpace(t[|t| - 1]))
    ensures StripRight(t + post) == t
    decreases |post|
  {
    hide IsSpace;
    if post == "" {
      assert t + post == t;
    } else {
      var n := |post| - 1;
      assert (t + post)[..|t + post| - 1] == t + post[..n];
      StripRightIs(t, post[..n]);
    }
  }

  lemma StripIs(pre: string, t: string, post: string)
    requires AllSpace(pre) && AllSpace(post) && NoSpaceAtEnds(t)
    ensures Strip(pre + t + post) == t
  {
    hide IsSpace;
    assert pre + t + post == pre + (t + post) && (t + post)[0] == t[0];
    StripLeftIs(pre, t + post);
    StripRightIs(t, post);
  }

  lemma {:induction false} StripLeftSplits(s: string) returns (pre: string)
    ensures AllSpace(pre) && s == pre + StripLeft(s) && (StripLeft(s) == "" || !IsSpace(StripLeft(s)[0]))
    decreases |s|
  {
    hide IsSpace;
    pre := "";
    if s != "" && IsSpace(s[0]) {
      var rest := StripLeftSplits(s[1..]);
      pre := [s[0]] + rest;
    }
  }

  lemma {:induction false} StripRightSplits(s: string) returns (post: string)
    ensures AllSpace(post) && s == StripRight(s) + post
    ensures var t := StripRight(s); t == "" || (!IsSpace(t[|t| - 1]) && t[0] == s[0])
    decreases |s|
  {
    hide IsSpace;
    post := "";
    if s != "" && IsSpace(s[|s| - 1]) {
      var rest := StripRightSplits(s[..|s| - 1]);
      post := rest + [s[|s| - 1]];
    }
  }

  lemma StripSplits(s: string) returns (pre: string, post: string)
    requires Strip(s) != ""
    ensures AllSpace(pre) && AllSpace(post) && NoSpaceAtEnds(Strip(s)) && s == pre + Strip(s) + post
  {
    hide IsSpace;
    pre := StripLeftSplits(s);
    post := StripRightSplits(StripLeft(s));
    assert pre + (Strip(s) + post) == pre + Strip(s) + post;
  }

  lemma {:induction false} JoinOfSplit(s: string)
    ensures Join(Split(s)) == s
    decreases |s|
  {
    hide Join;
    if s != "" {
      JoinOfSplit(s[1..]);
      if s[0] == '.' {
        JoinDot(Split(s[1..]));
        assert s == "." + s[1..];
      } else {
        JoinChar(s[0], Split(s[1..]));
        assert s == [s[0]] + s[1..];
      }
    } else {
      JoinDot([""]);
    }
  }

  lemma JoinDot(rest: seq<string>)
    requires rest != []
    ensures Join([""] + rest) == "." + Join(rest) && Join([""]) == ""
  {
    assert ([""] + rest)[1..] == rest && "" + "." + Join(rest) == "." + Join(rest);
  }

  lemma JoinChar(c: char, rest: seq<string>)
    requires rest != []
    ensures Join([[c] + rest[0]] + rest[1..]) == [c] + Join(rest)
  {
    var all := [[c] + rest[0]] + rest[1..];
    assert all[1..] == rest[1..];
    if |rest| > 1 { assert [c] + rest[0] + "." + Join(rest[1..]) == [c] + (rest[0] + "." + Join(rest[1..])); }
  }

  lemma {:induction false} SplitLabel(part: string, tail: string)
    requires '.' !in part
    ensures var rest := Split(tail); Split(part + tail) == [part + rest[0]] + rest[1..]
    decreases |part|
  {
    if part == "" {
      assert part + tail == tail;
      assert "" + Split(tail)[0] == Split(tail)[0];
    } else {
      assert (part + tail)[1..] == part[1..] + tail;
      SplitLabel(part[1..], tail);
      var rest := Split(tail);
      assert [part[0]] + (part[1..] + rest[0]) == part + rest[0];
    }
  }

  lemma {:induction false} SplitOfJoin(labels: seq<string>)
    requires labels != [] && forall i :: 0 <= i < |labels| ==> '.' !in labels[i]
    ensures Split(Join(labels)) == labels
    decreases |labels|
  {
    if |labels| == 1 {
      SplitLabel(labels[0], "");
      assert labels[0] + "" == labels[0] && labels == [labels[0]];
    } else {
      var tail := "." + Join(labels[1..]);
      SplitOfJoin(labels[1..]);
      assert tail[1..] == Join(labels[1..]) && Split(tail) == [""] + labels[1..];
      SplitLabel(labels[0], tail);
      assert labels[0] + "" == labels[0] && labels[0] + "." + Join(labels[1..]) == labels[0] + tail;
      assert labels == [labels[0]] + labels[1..];
    }
  }

  lemma LabelHasNoDot(part: string)
    requires IsLabel(part)
    ensures '.' !in part && part != ""
  {
  }

  lemma {:induction false} JoinEndsInLabel(labels: seq<string>)
    requires labels != [] && forall i :: 0 <= i < |labels| ==> '.' !in labels[i] && labels[i] != ""
    ensures Join(labels) != "" && !EndsWithDot(Join(labels))
    decreases |labels|
  {
    if |labels| > 1 { JoinEndsInLabel(labels[1..]); }
  }

  /** The form of an accepted name, and every name of that form is accepted. */
  lemma AcceptedHasForm(name: string) returns (pre: string, t: string, post: string, labels: seq<string>)
    requires Accepts(name)
    ensures IsHostname(name, pre, t, post, labels)
  {
    var norm := Normalize(name);
    t, labels := Strip(name), Split(norm);
    assert Lower(t) == norm || Lower(t) == norm + ".";
    assert forall i :: 0 <= i < |labels| ==> GoodLabel(labels[i]);
    assert t != "" by { assert Lower("") == ""; }
    assert |norm| <= 253;
    hide *;
    pre, post := StripSplits(name);
    JoinOfSplit(norm);
    LowerSpells(Lower(t), t);
    forall i | 0 <= i < |labels| ensures IsLabel(labels[i]) { GoodLabelIsLabel(labels[i]); }
  }

  lemma FormIsAccepted(name: string, pre: string, t: string, post: string, labels: seq<string>)
    requires IsHostname(name, pre, t, post, labels)
    ensures Accepts(name) && Normalize(name) == Join(labels)
  {
    hide Split, Join, Spells, Strip, Lower, IsSpace, AllSpace, NoSpaceAtEnds;
    StripIs(pre, t, post);
    LowerSpells(Join(labels), t);
    LowerSpells(Join(labels) + ".", t);
    forall i | 0 <= i < |labels| ensures '.' !in labels[i] && labels[i] != "" && GoodLabel(labels[i]) {
      LabelHasNoDot(labels[i]);
      GoodLabelIsLabel(labels[i]);
    }
    hide IsLabel, GoodLabel;
    JoinEndsInLabel(labels);
    SplitOfJoin(labels);
    assert (Join(labels) + ".")[..|Join(labels)|] == Join(labels);
  }

  lemma AcceptedIff(name: string)
    ensures Accepts(name) <==> exists pre, t, post, labels :: IsHostname(name, pre, t, post, labels)
  {
    hide Accepts, IsHostname;
    if Accepts(name) {
      var pre, t, post, labels := AcceptedHasForm(name);
    }
    forall pre, t, post, labels | IsHostname(name, pre, t, post, labels) ensures Accepts(name) {
      FormIsAccepted(name, pre, t, post, labels);
    }
  }

  datatype ConfigError = Required | TooLong | BadLabel(part: string)

  /** The first thing wrong with a name, if anything is. */
  method ValidateHostname(name: string) returns (error: Option<ConfigError>)
    ensures error.None? <==> Accepts(name)
    ensures error.None? <==> exists pre, t, post, labels :: IsHostname(name, pre, t, post, labels)
    ensures error == Some(Required) <==> Normalize(name) == ""
    ensures error == Some(TooLong) <==> |Normalize(name)| > 253
    ensures error.Some? && error.value.BadLabel? ==>
              exists i :: 0 <= i < |Split(Normalize(name))| && Split(Normalize(name))[i] == error.value.part
                && !GoodLabel(error.value.part) && forall j :: 0 <= j < i ==> GoodLabel(Split(Normalize(name))[j])
  {
    AcceptedIff(name);
    hide IsHostname;
    var norm := Normalize(name);
    if norm == "" { return Some(Required); }
    if |norm| > 253 { return Some(TooLong); }
    var labels := Split(norm);
    for i := 0 to |labels|
      invariant forall j :: 0 <= j < i ==> GoodLabel(labels[j])
    {
      if !GoodLabel(labels[i]) { return Some(BadLabel(labels[i])); }
    }
    error := None;
  }

  // ---------------------------------------------------------------- the query

  predicate IsAscii(s: string) { forall i :: 0 <= i < |s| ==> s[i] as int < 128 }

  /** The IDNA encoding of one label: an ASCII one as it is, any other folded to lower case. */
  function Octets(part: Text): (b: seq<Byte>)
    ensures |b| == |part|
  {
    if IsAscii(part) then seq(|part|, i requires 0 <= i < |part| => part[i] as int)
    else seq(|part|, i requires 0 <= i < |part| => LowerChar(part[i]) as int)
  }

  function Qname(labels: seq<Text>): seq<Byte>
    requires FitLabels(labels)
  {
    if labels == [] then [0] else [|labels[0]|] + Octets(labels[0]) + Qname(labels[1..])
  }

  const FLAG_RD := 0x0100

  function QueryHeader(id: int): seq<Byte>
    requires IsU16(id)
  {
    U16Bytes(id) + U16Bytes(FLAG_RD) + U16Bytes(1) + U16Bytes(0) + U16Bytes(0) + U16Bytes(0)
  }

  function QuestionTail(): seq<Byte> { U16Bytes(TYPE_A) + U16Bytes(1) }

  predicate FitLabels(labels: seq<Text>) { forall i :: 0 <= i < |labels| ==> |labels[i]| <= 63 }

  /** One recursion-desired question for the A record of `name`; None when a label is too long. */
  method BuildQuery(name: Text, id: int) returns (query: Option<seq<Byte>>)
    requires IsU16(id)
    ensures var labels: seq<Text> := Split(StripDots(name));
            if FitLabels(labels) then query == Some(QueryHeader(id) + (Qname(labels) + QuestionTail())) else query.None?
    ensures query.Some? ==> IsQuery(query.value, id)
  {
    var labels: seq<Text> := Split(StripDots(name));
    var qname := EncodeLabels(labels);
    query := if qname.None? then None else Some(QueryHeader(id) + (qname.value + QuestionTail()));
    if qname.Some? { QueryIs(qname.value, id); }
  }

  /** The transaction id, recursion desired, one question and nothing else; at the end type A, class IN. */
  ghost predicate IsQuery(query: seq<Byte>, id: int) {
    && |query| >= 16 && 256 * (query[0] as int) + (query[1] as int) == id
    && query[2..12] == [1, 0, 0, 1, 0, 0, 0, 0, 0, 0]
    && query[|query| - 4..] == [0, 1, 0, 1]
  }

  lemma QueryIs(qname: seq<Byte>, id: int)
    requires IsU16(id)
    ensures IsQuery(QueryHeader(id) + (qname + QuestionTail()), id)
  {
    var h, tail := QueryHeader(id), QuestionTail();
    var query := h + (qname + tail);
    assert h == [id / 256, id % 256, 1, 0, 0, 1, 0, 0, 0, 0, 0, 0] && tail == [0, 1, 0, 1];
    assert query[2..12] == h[2..12] && query[|query| - 4..] == tail;
  }

  /** Every trailing dot goes, and nothing else. */
  lemma {:induction false} StripDotsIs(s: string)
    ensures StripDots(s) <= s && !EndsWithDot(StripDots(s))
    ensures forall i :: |StripDots(s)| <= i < |s| ==> s[i] == '.'
    decreases |s|
  {
    if EndsWithDot(s) { StripDotsIs(s[..|s| - 1]); }
  }

  /** What goes on the wire for a label spells it up to case. */
  lemma OctetsSpell(part: Text)
    ensures var octets := Octets(part);
            && |octets| == |part|
            && forall i :: 0 <= i < |part| ==>
                 octets[i] == part[i] as int || ('A' <= part[i] <= 'Z' && octets[i] == part[i] as int + 32)
                 || (part[i] == '\U{212A}' && octets[i] == 107)
  {
  }

  lemma QnameStep(labels: seq<Text>, i: nat, octets: seq<Byte>)
    requires i < |labels|
    ensures FitLabels(labels) ==>
              octets + Qname(labels[i..]) == octets + ([|labels[i]|] + Octets(labels[i])) + Qname(labels[i + 1..])
  {
    if FitLabels(labels) {
      var head, rest := [|labels[i]|] + Octets(labels[i]), Qname(labels[i + 1..]);
      assert labels[i..][1..] == labels[i + 1..];
      assert Qname(labels[i..]) == head + rest;
      hide Qname, Octets;
      assert octets + (head + rest) == octets + head + rest;
    }
  }

  lemma NoLabelsLeft(labels: seq<Text>)
    ensures labels == [] ==> Qname(labels) == [0]
  {
  }

  method EncodeLabels(labels: seq<Text>) returns (qname: Option<seq<Byte>>)
    ensures if FitLabels(labels) then qname == Some(Qname(labels)) else qname.None?
  {
    var octets: seq<Byte> := [];
    assert labels[0..] == labels;
    hide *;
    for i := 0 to |labels|
      invariant forall j :: 0 <= j < i ==> |labels[j]| <= 63
      invariant FitLabels(labels) ==> octets + Qname(labels[i..]) == Qname(labels)
    {
      if |labels[i]| > 63 { return None; }
      QnameStep(labels, i, octets);
      octets := octets + ([|labels[i]|] + Octets(labels[i]));
    }
    NoLabelsLeft(labels[|labels|..]);
    qname := Some(octets + [0]);
  }

  // ---------------------------------------------------------------- an accepted name is a legal query

  lemma LowerCons(s: string)
    requires s != ""
    ensures Lower(s)[1..] == Lower(s[1..]) && (Lower(s)[0] == '.' <==> s[0] == '.')
    ensures forall t: string :: Lower([s[0]] + t) == [Lower(s)[0]] + Lower(t)
  {
  }

  /** Lower-casing leaves the dots where they are. */
  lemma {:induction false} SplitOfLower(s: string)
    ensures |Split(Lower(s))| == |Split(s)|
    ensures forall i :: 0 <= i < |Split(s)| ==> Split(Lower(s))[i] == Lower(Split(s)[i])
    decreases |s|
  {
    if s == "" {
      assert Lower("") == "";
    } else {
      LowerCons(s);
      SplitOfLower(s[1..]);
      assert Lower("") == "";
      var rest, lowered := Split(s[1..]), Split(Lower(s[1..]));
      assert Lower(s) != "";
      hide Lower;
      if s[0] == '.' {
        assert Split(s) == [""] + rest && Split(Lower(s)) == [""] + lowered;
      } else {
        assert Split(s) == [[s[0]] + rest[0]] + rest[1..];
        assert Split(Lower(s)) == [[Lower(s)[0]] + lowered[0]] + lowered[1..];
        hide Split;
      }
    }
  }

  lemma {:induction false} TrailingDotSplitsEmpty(s: string)
    requires EndsWithDot(s)
    ensures |Split(s)| > 1 && Split(s)[|Split(s)| - 1] == ""
    decreases |s|
  {
    if |s| > 1 {
      TrailingDotSplitsEmpty(s[1..]);
    } else {
      assert s == "." && s[1..] == "";
    }
  }

  /** Validation sees the name the query is built from, up to case. */
  lemma AcceptedNameIsSent(name: string)
    requires Accepts(name)
    ensures Lower(StripDots(Strip(name))) == Normalize(name)
  {
    var t := Strip(name);
    var norm := Normalize(name);
    if EndsWithDot(norm) { TrailingDotSplitsEmpty(norm); }
    if EndsWithDot(Lower(t)) {
      var u := t[..|t| - 1];
      assert Lower(u) == norm;
      assert EndsWithDot(t) && (EndsWithDot(u) ==> EndsWithDot(norm));
      assert StripDots(t) == StripDots(u) == u;
    } else {
      assert EndsWithDot(t) ==> EndsWithDot(Lower(t));
    }
  }

  function ToName(labels: seq<Text>): Name
    requires forall i :: 0 <= i < |labels| ==> 1 <= |labels[i]| <= 63
  {
    Name(seq(|labels|, i requires 0 <= i < |labels| => Octets(labels[i])), None)
  }

  lemma {:induction false} QnameIsEncodedName(labels: seq<Text>)
    requires forall i :: 0 <= i < |labels| ==> 1 <= |labels[i]| <= 63
    ensures Qname(labels) == EncodeName(ToName(labels))
    decreases |labels|
  {
    if labels != [] {
      QnameIsEncodedName(labels[1..]);
      assert ToName(labels).labels[1..] == ToName(labels[1..]).labels;
    }
  }

  lemma {:induction false} QnameLength(s: Text)
    requires FitLabels(Split(s))
    ensures |Qname(Split(s))| == |s| + 2
    decreases |s|
  {
    if s == "" {
      assert Qname([""]) == [0] + Octets("") + Qname([""][1..]);
    } else {
      var rest := Split(s[1..]);
      if s[0] == '.' {
        assert Split(s)[1..] == rest;
        assert forall i :: 0 <= i < |rest| ==> rest[i] == Split(s)[i + 1];
        QnameLength(s[1..]);
      } else {
        assert Split(s)[1..] == rest[1..];
        assert forall i :: 1 <= i < |rest| ==> rest[i] == Split(s)[i];
        assert |Split(s)[0]| == |rest[0]| + 1;
        QnameLength(s[1..]);
      }
    }
  }

  /** Every character of an accepted name is ASCII or the Kelvin sign. */
  lemma AcceptedIsText(name: string)
    requires Accepts(name)
    ensures AllText(Strip(name))
  {
    var t, norm := Strip(name), Normalize(name);
    forall i | 0 <= i < |t| ensures IsText(t[i]) {
      if i < |norm| && norm[i] != '.' {
        CharIsInALabel(norm, i);
        var k :| 0 <= k < |Split(norm)| && norm[i] in Split(norm)[k];
        assert GoodLabel(Split(norm)[k]);
        GoodCharIsAscii(Split(norm)[k], norm[i]);
      }
      assert Lower(t)[i] == if i < |norm| then norm[i] else '.';
    }
  }

  lemma GoodCharIsAscii(part: string, c: char)
    requires GoodLabel(part) && c in part
    ensures c as int < 128
  {
    var i :| 0 <= i < |part| && part[i] == c;
    if !IsLdh(part) && i < |part| - 1 { assert part[..|part| - 1][i] == c; }
  }

  lemma AcceptedLabelsFit(name: string)
    requires Accepts(name)
    ensures AllText(Strip(name))
    ensures var labels: seq<Text> := Split(StripDots(Strip(name)));
            && FitLabels(labels) && (forall i :: 0 <= i < |labels| ==> 1 <= |labels[i]| <= 63) && |Qname(labels)| <= 255
  {
    AcceptedIsText(name);
    var sent := StripDots(Strip(name));
    var labels := Split(sent);
    AcceptedNameIsSent(name);
    SplitOfLower(sent);
    forall i | 0 <= i < |labels| ensures 1 <= |labels[i]| <= 63 {
      assert GoodLabel(Split(Normalize(name))[i]);
    }
    QnameLength(sent);
  }

  function QueryMessage(labels: seq<Text>, id: int): (m: Message)
    requires IsU16(id) && forall i :: 0 <= i < |labels| ==> 1 <= |labels[i]| <= 63
    ensures Good(m)
  {
    Message(id, FLAG_RD, [Question(ToName(labels), TYPE_A, 1)], [], 0, 0, [])
  }

  lemma WalkStopsBeforeTail(head: seq<Byte>, name: Name, tail: seq<Byte>)
    requires |head| == 12 && |tail| == 4 && GoodName(name)
    ensures var data := head + (EncodeName(name) + tail); SkipNameSpec(data, 12) == Some(|data| - 4)
  {
    var data := head + (EncodeName(name) + tail);
    assert Sits(data, 0, head + (EncodeName(name) + tail));
    hide Sits, SkipNameSpec, EncodeName;
    SitsSplit(data, 0, head, EncodeName(name) + tail);
    SitsSplit(data, 12, EncodeName(name), tail);
    SkipsName(data, 12, name);
  }

  /** The built query is the standard encoding of one question. */
  lemma QueryIsEncoded(labels: seq<Text>, id: int)
    requires IsU16(id) && forall i :: 0 <= i < |labels| ==> 1 <= |labels[i]| <= 63
    ensures Encode(QueryMessage(labels, id)) == QueryHeader(id) + (Qname(labels) + QuestionTail())
  {
    var m := QueryMessage(labels, id);
    QnameIsEncodedName(labels);
    var question := EncodeQuestion(m.questions[0]);
    assert question == Qname(labels) + QuestionTail();
    assert EncodeQuestions(m.questions) == question by {
      assert m.questions[1..] == [] && question + [] == question;
    }
    assert EncodeRecords(m.answers) + m.rest == [];
    assert question + [] == question;
    assert Header(m) == QueryHeader(id);
  }

  lemma HeaderIsTwelve(id: int)
    requires IsU16(id)
    ensures |QueryHeader(id)| == 12
  {
  }

  /** A name that validation accepts never makes the query builder raise; its query is the standard
      encoding of one question, its QNAME fits 255 octets (section 2.3.4 of RFC 1035), and the
      reply parser's name walk over it stops right before QTYPE and QCLASS. */
  lemma AcceptedNameBuildsALegalQuery(name: string, id: int)
    requires Accepts(name) && IsU16(id)
    ensures AllText(Strip(name))
    ensures var labels: seq<Text> := Split(StripDots(Strip(name)));
            && FitLabels(labels) && |Qname(labels)| <= 255
            && (forall i :: 0 <= i < |labels| ==> 1 <= |labels[i]| <= 63)
            && var query := QueryHeader(id) + (Qname(labels) + QuestionTail());
               query == Encode(QueryMessage(labels, id)) && SkipNameSpec(query, 12) == Some(|query| - 4)
  {
    hide Accepts, Split, StripDots, Strip, Qname, QueryHeader, EncodeName, Encode, SkipNameSpec, QueryMessage;
    AcceptedLabelsFit(name);
    var labels: seq<Text> := Split(StripDots(Strip(name)));
    QueryIsEncoded(labels, id);
    QnameIsEncodedName(labels);
    assert |QueryHeader(id)| == 12 by { HeaderIsTwelve(id); }
    WalkStopsBeforeTail(QueryHeader(id), ToName(labels), QuestionTail());
  }

  // ---------------------------------------------------------------- the allowlist's one gap

  lemma {:induction false} CharIsInALabel(s: string, i: nat)
    requires i < |s| && s[i] != '.'
    ensures exists k :: 0 <= k < |Split(s)| && s[i] in Split(s)[k]
    decreases |s|
  {
    var rest := Split(s[1..]);
    if i == 0 {
      assert s[0] in Split(s)[0];
    } else {
      CharIsInALabel(s[1..], i - 1);
      var k :| 0 <= k < |rest| && s[i] in rest[k];
      if s[0] == '.' {
        assert Split(s)[k + 1] == rest[k];
      } else if k == 0 {
        assert Split(s)[0] == [s[0]] + rest[0];
      } else {
        assert Split(s)[k] == rest[k];
      }
    }
  }

  lemma {:induction false} LabelCharsAreInName(s: string, k: nat)
    requires k < |Split(s)|
    ensures forall c :: c in Split(s)[k] ==> c in s
    decreases |s|
  {
    if s != "" {
      var rest := Split(s[1..]);
      if s[0] == '.' {
        if k > 0 {
          LabelCharsAreInName(s[1..], k - 1);
          assert Split(s)[k] == rest[k - 1];
        }
      } else {
        LabelCharsAreInName(s[1..], k);
        assert k > 0 ==> Split(s)[k] == rest[k];
        assert k == 0 ==> Split(s)[k] == [s[0]] + rest[0];
      }
    }
  }

  /** Accepted labels are letters, digits and hyphens exactly when the normalised name holds no line
      feed: the pattern's end anchor lets one close a label. */
  lemma AcceptedLabelsAreLdhIff(name: string)
    requires Accepts(name)
    ensures (forall i :: 0 <= i < |Split(Normalize(name))| ==> IsLdh(Split(Normalize(name))[i]))
       <==> '\n' !in Normalize(name)
  {
    var norm := Normalize(name);
    var labels := Split(norm);
    if '\n' in norm {
      var i :| 0 <= i < |norm| && norm[i] == '\n';
      CharIsInALabel(norm, i);
      var k :| 0 <= k < |labels| && norm[i] in labels[k];
      var j :| 0 <= j < |labels[k]| && labels[k][j] == '\n';
      assert !IsLdh(labels[k]);
    } else {
      forall k | 0 <= k < |labels| ensures IsLdh(labels[k]) {
        assert GoodLabel(labels[k]) && labels[k][|labels[k]| - 1] in labels[k];
        LabelCharsAreInName(norm, k);
      }
    }
  }

  lemma SplitLabelDotLabel(a: string)
    requires |a| == 2 && a[0] != '.' && a[1] != '.'
    ensures Split(a + ".b") == [a, "b"]
  {
    var s: string := a + ".b";
    assert s[1..] == [a[1]] + ".b" && s[1..][1..] == ".b" && ".b"[1..] == "b" && "b"[1..] == "";
    assert Split("b") == ["b"] by { assert Split("") == [""] && ['b'] + "" == "b"; }
    assert Split(".b") == ["", "b"];
    assert Split([a[1]] + ".b") == [[a[1]], "b"] by { assert [a[1]] + "" == [a[1]]; }
    assert [a[0]] + [a[1]] == a;
  }

  lemma LineFeedNameIsNormal()
    ensures Normalize("a\n.b") == "a\n.b"
  {
    var n: string := "a\n.b";
    assert StripLeft(n) == n && StripRight(n) == n;
    assert Lower(n) == n;
  }

  /** One such name: its first label closes with a line feed. */
  lemma LineFeedLabelIsAccepted()
    ensures Accepts("a\n.b") && !IsLdh(Split(Normalize("a\n.b"))[0])
  {
    LineFeedNameIsNormal();
    SplitLabelDotLabel("a\n");
    hide Split, Normalize;
    assert "a\n" + ".b" == "a\n.b";
    assert Split("a\n.b") == ["a\n", "b"];
    assert "a\n"[..1] == "a";
  }

  /** And one with a Kelvin sign, sent as `k`. */
  lemma KelvinNameIsAccepted()
    ensures Accepts([KELVIN, 'x']) && Octets([KELVIN, 'x']) == ['k' as int, 'x' as int]
  {
    var n := [KELVIN, 'x'];
    assert StripLeft(n) == n && StripRight(n) == n;
    assert Lower(n) == "kx";
    assert "kx"[1..] == "x" && "x"[1..] == "" && Split("") == [""];
    assert Split("x") == ["x"] by { assert ['x'] + "" == "x"; }
    assert Split("kx") == ["kx"] by { assert ['k'] + "x" == "kx"; }
    assert n[0] as int >= 128;
  }

  // ---------------------------------------------------------------- the record label

  datatype LabelResult = Label(part: string) | NameRequired | ZoneEmpty | Apex | NotUnderZone | EmptyLabel

  predicate EndsWith(s: string, suffix: string) { |suffix| <= |s| && s[|s| - |suffix|..] == suffix }

  function DeriveRecordLabel(name: Text, zone: Text): LabelResult {
    var n, z := Normalize(name), Normalize(zone);
    if n == "" then NameRequired
    else if z == "" then ZoneEmpty
    else if n == z then Apex
    else
      var suffix := "." + z;
      if !EndsWith(n, suffix) then NotUnderZone
      else if n[..|n| - |suffix|] == "" then EmptyLabel
      else Label(n[..|n| - |suffix|])
  }

  /** The relative label of a name under its zone: the normalised name is exactly that label, a dot and
      the normalised zone, and one is found whenever there is one. */
  lemma DerivedLabelIffUnderZone(name: Text, zone: Text, l: string)
    ensures DeriveRecordLabel(name, zone) == Label(l)
       <==> l != "" && Normalize(zone) != "" && Normalize(name) == l + "." + Normalize(zone)
  {
    var n, z := Normalize(name), Normalize(zone);
    hide Normalize;
    if EndsWith(n, "." + z) {
      assert n == n[..|n| - |"." + z|] + "." + z;
    }
    if n == l + "." + z {
      assert l + "." + z == l + ("." + z);
      assert n[..|n| - |"." + z|] == l && n[|n| - |"." + z|..] == "." + z;
    }
  }
}
