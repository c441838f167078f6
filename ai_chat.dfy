/** The tutor-chat endpoint's handling of the hosted model's reply (app.py,
    ai_chat): the reply text is trimmed, a leading "```json", then a leading
    "```", then a trailing "```" are dropped, it is trimmed again and parsed
    as JSON; whatever goes wrong, from the model call to the parse, yields one
    fixed chat reply. The model call and the JSON parser are parameters. */
module AiChat {
  import opened Wrappers

  /** A JSON value as the parser returns it. Numbers keep their literal text. */
  datatype Json =
    | JNull
    | JBool(b: bool)
    | JNumber(literal: string)
    | JString(s: string)
    | JArray(items: seq<Json>)
    | JObject(fields: map<string, Json>)

  /** What asking the hosted model produced: the text of its reply, or an
      exception (network, quota, a blocked reply without text). */
  datatype ModelCall = Replied(text: string) | Raised

  /** The reply text sent whenever anything fails. */
  const FallbackText := "I am thinking... try asking again!"

  /** The fixed chat reply sent whenever anything fails. */
  const Fallback := JObject(map["type" := JString("chat"), "reply" := JString(FallbackText)])

  const JsonFence := "```json"
  const Fence := "```"

  /** The characters Python's `str.strip()` removes: those for which
      `str.isspace()` holds, by code point. */
  predicate IsSpace(c: char) {
    var n := c as int;
    || 0x09 <= n <= 0x0D
    || 0x1C <= n <= 0x20
    || n == 0x85 || n == 0xA0 || n == 0x1680
    || 0x2000 <= n <= 0x200A
    || n == 0x2028 || n == 0x2029 || n == 0x202F || n == 0x205F || n == 0x3000
  }

  predicate AllSpace(s: string) {
    forall i :: 0 <= i < |s| ==> IsSpace(s[i])
  }

  /** Neither the first nor the last character is whitespace. */
  predicate Tight(s: string) {
    s == [] || (!IsSpace(s[0]) && !IsSpace(s[|s| - 1]))
  }

  predicate StartsWith(s: string, prefix: string) {
    |prefix| <= |s| && s[..|prefix|] == prefix
  }

  predicate EndsWith(s: string, suffix: string) {
    |suffix| <= |s| && s[|s| - |suffix|..] == suffix
  }

  /** `s` without its leading whitespace. */
  function TrimStart(s: string): (r: string)
    ensures |r| <= |s| && r == s[|s| - |r|..]
    ensures AllSpace(s[..|s| - |r|])
    ensures r == [] || !IsSpace(r[0])
    decreases |s|
  {
    if s != [] && IsSpace(s[0]) then
      var r := TrimStart(s[1..]);
      assert s[..|s| - |r|] == [s[0]] + s[1..][..|s| - 1 - |r|];
      r
    else s
  }

  /** `s` without its trailing whitespace. */
  function TrimEnd(s: string): (r: string)
    ensures |r| <= |s| && r == s[..|r|]
    ensures AllSpace(s[|r|..])
    ensures r == [] || !IsSpace(r[|r| - 1])
    decreases |s|
  {
    if s != [] && IsSpace(s[|s| - 1]) then
      var r := TrimEnd(s[..|s| - 1]);
      assert s[|r|..] == s[..|s| - 1][|r|..] + [s[|s| - 1]];
      r
    else s
  }

  /** Python's `s.strip()`: the part of `s` between its leading and its
      trailing whitespace. */
  function Trim(s: string): (r: string)
    ensures Tight(r)
    ensures |r| <= |s|
    ensures r == [] <==> AllSpace(s)
  {
    var t := TrimStart(s);
    var r := TrimEnd(t);
    assert AllSpace(s) ==> t == [] by {
      if AllSpace(s) {
        TrimStartAllSpace(s);
      }
    }
    assert r == [] ==> AllSpace(s) by {
      if r == [] {
        assert t[|r|..] == t;
        AllSpaceConcat(s[..|s| - |t|], t);
        assert s == s[..|s| - |t|] + t;
      }
    }
    r
  }

  /** Nothing is left of all-whitespace text once its leading whitespace is
      gone. */
  lemma {:induction false} TrimStartAllSpace(s: string)
    requires AllSpace(s)
    ensures TrimStart(s) == []
    decreases |s|
  {
    if s != [] {
      assert AllSpace(s[1..]) by {
        forall i | 0 <= i < |s| - 1 ensures IsSpace(s[1..][i]) {
          assert s[1..][i] == s[i + 1];
        }
      }
      TrimStartAllSpace(s[1..]);
    }
  }

  lemma AllSpaceConcat(a: string, b: string)
    requires AllSpace(a) && AllSpace(b)
    ensures AllSpace(a + b)
  {
    forall i | 0 <= i < |a + b| ensures IsSpace((a + b)[i]) {
      if i < |a| {
        assert (a + b)[i] == a[i];
      } else {
        assert (a + b)[i] == b[i - |a|];
      }
    }
  }

  /** `s` without `prefix` if it starts with it (`s[len(prefix):]` behind a
      `startswith` test). */
  function DropPrefix(s: string, prefix: string): (r: string)
    ensures StartsWith(s, prefix) ==> s == prefix + r
    ensures !StartsWith(s, prefix) ==> r == s
  {
    if StartsWith(s, prefix) then s[|prefix|..] else s
  }

  /** `s` without `suffix` if it ends with it (`s[:-len(suffix)]` behind an
      `endswith` test). */
  function DropSuffix(s: string, suffix: string): (r: string)
    ensures EndsWith(s, suffix) ==> s == r + suffix
    ensures !EndsWith(s, suffix) ==> r == s
  {
    if EndsWith(s, suffix) then s[..|s| - |suffix|] else s
  }

  /** The text handed to the JSON parser: trimmed, a leading "```json"
      dropped, then independently a leading "```", then a trailing "```",
      and trimmed again. */
  function StripFences(raw: string): (r: string)
    ensures Tight(r)
    ensures |r| <= |raw|
  {
    Trim(DropSuffix(DropPrefix(DropPrefix(Trim(raw), JsonFence), Fence), Fence))
  }

  /** What the endpoint sends back: the parse of the stripped reply, or the
      fixed fallback when the model call raised or the parse failed. The
      parsed value is passed on as it is, whatever its "type" field says. */
  function ChatReply(call: ModelCall, parse: string -> Option<Json>): (reply: Json)
    ensures call.Raised? ==> reply == Fallback
    ensures call.Replied? && parse(StripFences(call.text)).None? ==> reply == Fallback
    ensures call.Replied? && parse(StripFences(call.text)).Some? ==> reply == parse(StripFences(call.text)).value
    ensures reply != Fallback ==> call.Replied? && parse(StripFences(call.text)) == Some(reply)
  {
    match call
    case Raised => Fallback
    case Replied(text) =>
      match parse(StripFences(text))
      case Some(value) => value
      case None => Fallback
  }

  /** Text with no surrounding whitespace is left alone by trimming. */
  lemma TrimTight(s: string)
    requires Tight(s)
    ensures Trim(s) == s
  {
  }

  /** Trimming twice trims no more than trimming once. */
  lemma TrimIdempotent(s: string)
    ensures Trim(Trim(s)) == Trim(s)
  {
    TrimTight(Trim(s));
  }

  /** Whitespace in front of text that starts with a non-space is dropped. */
  lemma {:induction false} TrimStartSkips(lead: string, t: string)
    requires AllSpace(lead)
    requires t == [] || !IsSpace(t[0])
    ensures TrimStart(lead + t) == t
    decreases |lead|
  {
    if lead != [] {
      assert (lead + t)[1..] == lead[1..] + t;
      TrimStartSkips(lead[1..], t);
    }
  }

  /** Whitespace after text that ends with a non-space is dropped. */
  lemma {:induction false} TrimEndSkips(t: string, trail: string)
    requires AllSpace(trail)
    requires t == [] || !IsSpace(t[|t| - 1])
    ensures TrimEnd(t + trail) == t
    decreases |trail|
  {
    if trail != [] {
      assert (t + trail)[..|t + trail| - 1] == t + trail[..|trail| - 1];
      TrimEndSkips(t, trail[..|trail| - 1]);
    }
  }

  /** Trimming text wrapped in whitespace gives the text back. */
  lemma TrimPadded(lead: string, s: string, trail: string)
    requires AllSpace(lead) && AllSpace(trail) && Tight(s) && s != []
    ensures Trim(lead + s + trail) == s
  {
    assert lead + s + trail == lead + (s + trail);
    TrimStartSkips(lead, s + trail);
    TrimEndSkips(s, trail);
  }

  /** Text that opens with "```json" opens with "```". */
  lemma JsonFenceIsFence(s: string)
    ensures StartsWith(s, JsonFence) ==> StartsWith(s, Fence)
  {
    if StartsWith(s, JsonFence) {
      assert s[..3] == s[..7][..3];
    }
  }

  /** A reply without fences is only trimmed. */
  lemma UnfencedOnlyTrimmed(raw: string)
    requires !StartsWith(Trim(raw), Fence) && !EndsWith(Trim(raw), Fence)
    ensures StripFences(raw) == Trim(raw)
  {
    var t0 := Trim(raw);
    JsonFenceIsFence(t0);
    assert DropSuffix(DropPrefix(DropPrefix(t0, JsonFence), Fence), Fence) == t0;
    TrimTight(t0);
  }

  /** Once the opening fence is gone, `body + "```"` comes back as `body`
      from the remaining two checks, provided `body` does not itself open
      with a fence. */
  lemma FenceTail(body: string)
    requires !StartsWith(body, Fence)
    ensures DropSuffix(DropPrefix(body + Fence, Fence), Fence) == body
  {
    var t1 := body + Fence;
    if StartsWith(t1, Fence) {
      assert |body| < 3;
      forall i | 0 <= i < |body| ensures body[i] == '`' {
        assert body[i] == t1[..3][i];
      }
      var t2 := DropPrefix(t1, Fence);
      assert t2 == t1[3..];
      assert t2 == body by {
        forall i | 0 <= i < |body| ensures t2[i] == body[i] {
          assert t2[i] == Fence[i + 3 - |body|];
        }
      }
      assert !EndsWith(t2, Fence);
    } else {
      assert EndsWith(t1, Fence) by {
        assert t1[|t1| - 3..] == Fence;
      }
      assert t1[..|t1| - 3] == body;
    }
  }

  /** Whitespace around text without surrounding whitespace changes
      nothing about how it is stripped. */
  lemma StripPadded(lead: string, core: string, trail: string)
    requires AllSpace(lead) && AllSpace(trail) && Tight(core) && core != []
    ensures StripFences(lead + core + trail) == StripFences(core)
  {
    TrimPadded(lead, core, trail);
    TrimTight(core);
  }

  /** Fenced text opens and closes with a backtick, so it has no surrounding
      whitespace. */
  lemma FencedTight(open: string, body: string)
    requires open == JsonFence || open == Fence
    ensures Tight(open + body + Fence) && open + body + Fence != []
  {
    var core := open + body + Fence;
    assert core[0] == open[0];
    assert core[|core| - 1] == Fence[2];
  }

  /** Stripping text without surrounding whitespace starts from the text
      itself. */
  lemma StripTight(core: string)
    requires Tight(core)
    ensures StripFences(core) == Trim(DropSuffix(DropPrefix(DropPrefix(core, JsonFence), Fence), Fence))
  {
    TrimTight(core);
  }

  /** The opening of fenced text is recognised and dropped. */
  lemma OpeningDropped(open: string, body: string)
    ensures DropPrefix(open + body + Fence, open) == body + Fence
  {
    var core := open + body + Fence;
    assert core[..|open|] == open;
    assert core[|open|..] == body + Fence;
  }

  /** "```json" + body + "```" yields the trimmed body. */
  lemma JsonFencedCore(body: string)
    requires !StartsWith(body, Fence)
    ensures StripFences(JsonFence + body + Fence) == Trim(body)
  {
    var core := JsonFence + body + Fence;
    FencedTight(JsonFence, body);
    StripTight(core);
    assert DropPrefix(core, JsonFence) == body + Fence by {
      OpeningDropped(JsonFence, body);
    }
    FenceTail(body);
  }

  /** "```json" + body + "```", with any surrounding whitespace, yields the
      trimmed body. */
  lemma JsonFencedBody(lead: string, body: string, trail: string)
    requires AllSpace(lead) && AllSpace(trail)
    requires !StartsWith(body, Fence)
    ensures StripFences(lead + JsonFence + body + Fence + trail) == Trim(body)
  {
    var core := JsonFence + body + Fence;
    assert lead + JsonFence + body + Fence + trail == lead + core + trail;
    FencedTight(JsonFence, body);
    StripPadded(lead, core, trail);
    JsonFencedCore(body);
  }

  /** A plain fence followed by a body that does not begin with "json" is
      not taken for a "```json" fence. */
  lemma NoJsonTagAfterFence(body: string)
    requires !StartsWith(body, "json")
    ensures !StartsWith(Fence + body + Fence, JsonFence)
  {
    var core := Fence + body + Fence;
    if |body| >= 4 {
      assert core[3..7] == body[..4];
    } else if body != [] {
      assert core[6] == (body + Fence)[3];
    }
  }

  /** "```" + body + "```" yields the trimmed body when the body does not
      begin with "json". */
  lemma PlainFencedCore(body: string)
    requires !StartsWith(body, Fence) && !StartsWith(body, "json")
    ensures StripFences(Fence + body + Fence) == Trim(body)
  {
    var core := Fence + body + Fence;
    FencedTight(Fence, body);
    StripTight(core);
    assert DropPrefix(DropPrefix(core, JsonFence), Fence) == body + Fence by {
      NoJsonTagAfterFence(body);
      OpeningDropped(Fence, body);
    }
    FenceTail(body);
  }

  /** "```" + body + "```", with any surrounding whitespace, yields the
      trimmed body when the body does not begin with "json". */
  lemma PlainFencedBody(lead: string, body: string, trail: string)
    requires AllSpace(lead) && AllSpace(trail)
    requires !StartsWith(body, Fence) && !StartsWith(body, "json")
    ensures StripFences(lead + Fence + body + Fence + trail) == Trim(body)
  {
    var core := Fence + body + Fence;
    assert lead + Fence + body + Fence + trail == lead + core + trail;
    FencedTight(Fence, body);
    StripPadded(lead, core, trail);
    PlainFencedCore(body);
  }

  /** Only one plain opening fence is dropped: a second one stays. */
  lemma OpeningFenceDroppedOnce(rest: string)
    requires rest != [] && !IsSpace(rest[|rest| - 1]) && rest[|rest| - 1] != '`'
    ensures StripFences(Fence + Fence + rest) == Fence + rest
  {
    var t0 := Fence + Fence + rest;
    TrimTight(t0);
    assert !StartsWith(t0, JsonFence) by {
      assert t0[3] == '`';
    }
    assert StartsWith(t0, Fence) by {
      assert t0[..3] == Fence;
    }
    var t2 := t0[|Fence|..];
    assert t2 == Fence + rest;
    assert !EndsWith(t2, Fence) by {
      assert t2[|t2| - 1] == rest[|rest| - 1];
    }
    TrimTight(t2);
  }

  /** The "```json" and the plain "```" checks are independent: a reply
      opening with both loses both. */
  lemma JsonThenPlainFence(rest: string)
    requires rest != [] && !IsSpace(rest[|rest| - 1]) && rest[|rest| - 1] != '`'
    ensures StripFences(JsonFence + Fence + rest) == Trim(rest)
  {
    var t0 := JsonFence + Fence + rest;
    TrimTight(t0);
    assert StartsWith(t0, JsonFence) by {
      assert t0[..7] == JsonFence;
    }
    var t1 := t0[|JsonFence|..];
    assert t1 == Fence + rest;
    assert StartsWith(t1, Fence) by {
      assert t1[..3] == Fence;
    }
    var t2 := t1[|Fence|..];
    assert t2 == rest;
    assert !EndsWith(t2, Fence) by {
      assert t2[|t2| - 1] == rest[|rest| - 1];
    }
  }

  /** A non-whitespace character survives the removal of trailing
      whitespace. */
  lemma {:induction false} TrimEndKeeps(s: string, i: nat)
    requires i < |s| && !IsSpace(s[i])
    ensures i < |TrimEnd(s)|
    decreases |s|
  {
    if IsSpace(s[|s| - 1]) {
      assert s[..|s| - 1][i] == s[i];
      TrimEndKeeps(s[..|s| - 1], i);
    }
  }

  /** Trimming keeps an opening fence: its backticks are not whitespace. */
  lemma TrimKeepsOpeningFence(body: string)
    requires StartsWith(body, Fence)
    ensures StartsWith(Trim(body), Fence)
  {
    assert !IsSpace(body[0]) && !IsSpace(body[2]) by {
      assert body[0] == body[..3][0] && body[2] == body[..3][2];
    }
    assert TrimStart(body) == body;
    TrimEndKeeps(body, 2);
    var r := TrimEnd(body);
    assert r[..3] == body[..3];
  }

  /** A fenced reply is answered exactly as the same reply without fences. */
  lemma FencedReplyAsUnfenced(lead: string, body: string, trail: string, parse: string -> Option<Json>)
    requires AllSpace(lead) && AllSpace(trail)
    requires !StartsWith(Trim(body), Fence) && !EndsWith(Trim(body), Fence)
    ensures ChatReply(Replied(lead + JsonFence + body + Fence + trail), parse) == ChatReply(Replied(body), parse)
  {
    if StartsWith(body, Fence) {
      TrimKeepsOpeningFence(body);
    }
    JsonFencedBody(lead, body, trail);
    UnfencedOnlyTrimmed(body);
  }

  /** A blank reply reaches the parser as empty text; when the parser
      rejects it the fallback is sent. */
  lemma BlankReplyFallsBack(raw: string, parse: string -> Option<Json>)
    requires AllSpace(raw)
    requires parse([]) == None
    ensures ChatReply(Replied(raw), parse) == Fallback
  {
    assert TrimStart(raw) == [];
  }

  /** A parsed object whose "type" is not "chat" is passed on, not replaced
      by the fallback: the discriminator is never checked. */
  lemma OtherTypePassedOn(call: ModelCall, parse: string -> Option<Json>, v: Json)
    requires call.Replied? && parse(StripFences(call.text)) == Some(v)
    requires v.JObject? && "type" in v.fields && v.fields["type"] != JString("chat")
    ensures ChatReply(call, parse) == v
    ensures ChatReply(call, parse) != Fallback
  {
    assert v.fields["type"] != Fallback.fields["type"];
  }
}
