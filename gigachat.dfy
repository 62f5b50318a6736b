/**
 * The deterministic part of the GigaChat classifier wrapper: removing Markdown code
 * fences from the model's reply, the capped score bumps for priority themes and premium
 * organisers, the fixed fallback record, and the list check on file analysis. The model's
 * reply and `json.loads` are inputs.
 */
module GigaChat {
  import opened Wrappers
  import opened Strings

  // ================================================================ JSON values

  /** What `json.loads` returns (floating-point numbers are not modelled). */
  datatype Json =
    | JNull
    | JBool(b: bool)
    | JInt(n: int)
    | JString(s: string)
    | JArray(items: seq<Json>)
    | JObject(fields: map<string, Json>)

  // ================================================================ code fences

  /** Three backticks start at index `i` of `s`. */
  predicate FenceAt(s: string, i: int)
  {
    0 <= i && i + 3 <= |s| && s[i] == '`' && s[i + 1] == '`' && s[i + 2] == '`'
  }

  /** `s` starts with the opening fence of a JSON block, three backticks and `json`. */
  predicate JsonFenceAt0(s: string)
  {
    FenceAt(s, 0) && |s| >= 7 && s[3] == 'j' && s[4] == 's' && s[5] == 'o' && s[6] == 'n'
  }

  /** `s` holds no three backticks in a row. */
  ghost predicate NoFence(s: string)
  {
    forall i :: !FenceAt(s, i)
  }

  /**
   * `re.sub(r"```json|```", "", s)`: scanning from the left, a `json` fence is removed in
   * preference to a bare fence (the alternation order), and every other character is kept.
   */
  function RemoveFences(s: string): (r: string)
    ensures |r| <= |s|
    decreases |s|
  {
    if s == [] then []
    else if JsonFenceAt0(s) then RemoveFences(s[7..])
    else if FenceAt(s, 0) then RemoveFences(s[3..])
    else [s[0]] + RemoveFences(s[1..])
  }

  /** The reply text handed to `json.loads`: fences removed, then `strip()`. */
  function Cleaned(reply: string): string
  {
    Strip(RemoveFences(reply))
  }

  /** After a kept backtick that does not start a fence, the output does not continue with two more. */
  lemma AfterKeptTick(t: string)
    requires !(|t| >= 2 && t[0] == '`' && t[1] == '`')
    ensures var r := RemoveFences(t); !(|r| >= 2 && r[0] == '`' && r[1] == '`')
  {
    if t != [] && t[0] == '`' && |t| >= 2 {
      assert !FenceAt(t, 0);
      var u := t[1..];
      assert !FenceAt(u, 0) && u[0] != '`';
      assert RemoveFences(u) == [u[0]] + RemoveFences(u[1..]);
    }
  }

  /** No three backticks survive the substitution. */
  lemma {:induction false} RemovedFencesNoFence(s: string)
    ensures NoFence(RemoveFences(s))
    decreases |s|
  {
    if s == [] {
    } else if JsonFenceAt0(s) {
      RemovedFencesNoFence(s[7..]);
    } else if FenceAt(s, 0) {
      RemovedFencesNoFence(s[3..]);
    } else {
      var t := s[1..];
      var rest := RemoveFences(t);
      var r := [s[0]] + rest;
      RemovedFencesNoFence(t);
      if s[0] == '`' {
        AfterKeptTick(t);
      }
      forall i ensures !FenceAt(r, i) {
        if i >= 1 && i + 3 <= |r| {
          assert r[i] == rest[i - 1] && r[i + 1] == rest[i] && r[i + 2] == rest[i + 1];
          assert !FenceAt(rest, i - 1);
        }
      }
    }
  }

  /** A slice of a fence-free string is fence-free. */
  lemma SliceNoFence(s: string, lo: int, hi: int)
    requires NoFence(s)
    requires 0 <= lo <= hi <= |s|
    ensures NoFence(s[lo..hi])
  {
    var t := s[lo..hi];
    forall i ensures !FenceAt(t, i) {
      if 0 <= i && i + 3 <= |t| {
        assert t[i] == s[lo + i] && t[i + 1] == s[lo + i + 1] && t[i + 2] == s[lo + i + 2];
        assert !FenceAt(s, lo + i);
      }
    }
  }

  /** Fence-free means that the substring test for three backticks fails. */
  lemma NoFenceNotContains(s: string)
    requires NoFence(s)
    ensures !Contains(s, "```")
  {
    forall i ensures !OccursAt(s, "```", i) {
      if 0 <= i && i + 3 <= |s| {
        var w := s[i..i + 3];
        assert !FenceAt(s, i);
        assert w[0] == s[i] && w[1] == s[i + 1] && w[2] == s[i + 2];
      }
    }
  }

  /** What `json.loads` sees never contains a code fence. */
  lemma CleanedHasNoFence(reply: string)
    ensures !Contains(Cleaned(reply), "```")
  {
    var r := RemoveFences(reply);
    RemovedFencesNoFence(reply);
    SliceNoFence(r, StripStart(r), StripStart(r) + |Strip(r)|);
    NoFenceNotContains(Cleaned(reply));
  }

  /** Text without backticks passes through the substitution unchanged, before any suffix. */
  lemma {:induction false} RemoveFencesNoTicks(j: string, u: string)
    requires '`' !in j
    ensures RemoveFences(j + u) == j + RemoveFences(u)
    decreases |j|
  {
    if j != [] {
      var s := j + u;
      var t := j[1..];
      assert RemoveFences(s) == [j[0]] + RemoveFences(t + u) by {
        assert s[0] == j[0] && j[0] in j;
        assert !FenceAt(s, 0) && !JsonFenceAt0(s);
        assert s[1..] == t + u;
      }
      assert '`' !in t by {
        assert forall x :: x in t ==> x in j;
      }
      RemoveFencesNoTicks(t, u);
      assert j == [j[0]] + t;
    } else {
      assert j + u == u;
    }
  }

  /** A reply wrapped in a `json` code block is unwrapped to its stripped content. */
  lemma FencedReplyRoundTrip(j: string)
    requires '`' !in j
    ensures Cleaned("```json" + j + "```") == Strip(j)
  {
    var s := "```json" + j + "```";
    assert JsonFenceAt0(s);
    assert s[7..] == j + "```";
    RemoveFencesNoTicks(j, "```");
    var tail: string := "```";
    assert FenceAt(tail, 0) && !JsonFenceAt0(tail);
    assert tail[3..] == [];
    assert RemoveFences(tail) == [];
    assert j + [] == j;
  }

  /** A reply without backticks is only stripped. */
  lemma UnfencedReply(reply: string)
    requires '`' !in reply
    ensures Cleaned(reply) == Strip(reply)
  {
    RemoveFencesNoTicks(reply, []);
    assert reply + [] == reply;
  }

  // ================================================================ score bumps

  /** The priority themes whose mention adds 10 points. */
  const Themes: seq<string> := ["AI", "искусственный интеллект", "нейросети"]

  /** `any(theme.lower() in text.lower() for theme in themes)`. */
  predicate MentionsTheme(text: string)
  {
    exists theme :: theme in Themes && Contains(Lower(text), Lower(theme))
  }

  /** `any(org in text for org in premium_organizers)`: a case-sensitive match. */
  predicate MentionsPremium(text: string, organizers: seq<string>)
  {
    exists org :: org in organizers && Contains(text, org)
  }

  /** `min(score + bonus, 100)`. */
  function CappedAdd(score: int, bonus: int): (r: int)
    ensures r <= 100
    ensures r <= score + bonus
    ensures r == score + bonus || r == 100
  {
    if score + bonus < 100 then score + bonus else 100
  }

  /** The score after the theme bump (+10) and then the organiser bump (+15), each capped at 100. */
  function Boosted(score: int, theme: bool, premium: bool): int
  {
    var afterTheme := if theme then CappedAdd(score, 10) else score;
    if premium then CappedAdd(afterTheme, 15) else afterTheme
  }

  /**
   * Without a bump the score is unchanged; with one it is the sum of the applied bonuses
   * capped once at 100: the two successive caps act as a single one.
   */
  lemma BoostedSingleCap(score: int, theme: bool, premium: bool)
    ensures !theme && !premium ==> Boosted(score, theme, premium) == score
    ensures theme || premium ==>
      Boosted(score, theme, premium) == CappedAdd(score, (if theme then 10 else 0) + (if premium then 15 else 0))
  {
  }

  /** For a score of at most 100 the boosted score lies in `[score, min(score + 25, 100)]`. */
  lemma BoostedBounds(score: int, theme: bool, premium: bool)
    requires score <= 100
    ensures score <= Boosted(score, theme, premium) <= CappedAdd(score, 25)
    ensures theme && premium && score >= 75 ==> Boosted(score, theme, premium) == 100
  {
  }

  /** A higher parsed score never yields a lower boosted one. */
  lemma BoostedMonotone(a: int, b: int, theme: bool, premium: bool)
    requires a <= b
    ensures Boosted(a, theme, premium) <= Boosted(b, theme, premium)
  {
  }

  /**
   * The match is on raw substrings, not words: any "a" or "A" followed by "i" or "I", wherever
   * it stands in the text, counts as a mention of "AI".
   */
  lemma ThemeMatchesInsideWords(text: string, i: int)
    requires 0 <= i && i + 2 <= |text|
    requires LowerChar(text[i]) == 'a' && LowerChar(text[i + 1]) == 'i'
    ensures MentionsTheme(text)
  {
    assert Lower("AI") == "ai";
    assert Lower(text)[i..i + 2] == "ai";
    assert OccursAt(Lower(text), Lower("AI"), i);
    assert "AI" in Themes;
  }

  /** So an ordinary word such as "email" earns the theme bonus. */
  lemma EmailMentionsTheme()
    ensures MentionsTheme("Send your email")
  {
    ThemeMatchesInsideWords("Send your email", 12);
  }

  // ================================================================ analysis

  /** `int(result['score'])` as Python evaluates `result['score'] + 10`: an int, or a bool as 0/1. */
  function ScoreOf(v: Json): Option<int>
  {
    match v
    case JObject(f) =>
      if "score" in f then
        match f["score"]
        case JInt(n) => Some(n)
        case JBool(b) => Some(if b then 1 else 0)
        case _ => None
      else None
    case _ => None
  }

  /** `result['score'] = n`. */
  function WithScore(v: Json, n: int): (r: Json)
    requires v.JObject?
    ensures ScoreOf(r) == Some(n)
    ensures r.JObject? && forall k :: k in v.fields && k != "score" ==> k in r.fields && r.fields[k] == v.fields[k]
    ensures r.JObject? && r.fields.Keys == v.fields.Keys + {"score"}
  {
    JObject(v.fields["score" := JInt(n)])
  }

  /** The record returned whenever the call, the decoding or a bump raises. */
  function Fallback(): (r: Json)
    ensures r.JObject? && ScoreOf(r) == Some(0)
    ensures r.JObject? && "is_it_related" in r.fields && r.fields["is_it_related"] == JBool(false)
    ensures r.JObject? && "recommendation" in r.fields && r.fields["recommendation"] == JString("пропустить")
    ensures r.JObject? && "key_themes" in r.fields && r.fields["key_themes"] == JArray([])
  {
    JObject(map[
      "title" := JString("Не удалось распознать"),
      "date" := JString("Не указана"),
      "location" := JString("СПб"),
      "score" := JInt(0),
      "is_it_related" := JBool(false),
      "summary" := JString("Ошибка анализа"),
      "target_audience" := JString("Не определена"),
      "level" := JString("неизвестно"),
      "expected_scale" := JString("неизвестно"),
      "recommendation" := JString("пропустить"),
      "key_themes" := JArray([])])
  }

  /**
   * `analyze_event(text)`: `reply` is the model's reply (`None` when the call raises),
   * `decode` is `json.loads` (`None` when it raises), and `organizers` the configured
   * premium organisers. A bump reads `result['score']`, so it raises (and the fallback is
   * returned) when the decoded value has no numeric score; with no bump the decoded value
   * is returned as it is, whatever it is.
   */
  function AnalyzeEvent(text: string, reply: Option<string>, decode: string -> Option<Json>,
                        organizers: seq<string>): (r: Json)
    ensures reply.None? ==> r == Fallback()
    ensures reply.Some? && decode(Cleaned(reply.value)).None? ==> r == Fallback()
    ensures reply.Some? && decode(Cleaned(reply.value)).Some? ==>
      var v := decode(Cleaned(reply.value)).value;
      var theme, premium := MentionsTheme(text), MentionsPremium(text, organizers);
      && (!theme && !premium ==> r == v)
      && ((theme || premium) && ScoreOf(v).None? ==> r == Fallback())
      && ((theme || premium) && ScoreOf(v).Some? ==> r == WithScore(v, Boosted(ScoreOf(v).value, theme, premium)))
  {
    match reply
    case None => Fallback()
    case Some(content) =>
      match decode(Cleaned(content))
      case None => Fallback()
      case Some(v) =>
        var theme, premium := MentionsTheme(text), MentionsPremium(text, organizers);
        if !theme && !premium then v
        else if ScoreOf(v).None? then Fallback()
        else
          var n := ScoreOf(v).value;
          var afterTheme := if theme then WithScore(v, CappedAdd(n, 10)) else v;
          if premium then WithScore(afterTheme, CappedAdd(ScoreOf(afterTheme).value, 15)) else afterTheme
  }

  /**
   * Whenever a bump applies, the returned record has a score of at most 100, and for a
   * parsed score of at most 100 it never lowers it.
   */
  lemma AnalyzedScoreCapped(text: string, reply: Option<string>, decode: string -> Option<Json>,
                            organizers: seq<string>)
    requires MentionsTheme(text) || MentionsPremium(text, organizers)
    ensures ScoreOf(AnalyzeEvent(text, reply, decode, organizers)).Some?
    ensures ScoreOf(AnalyzeEvent(text, reply, decode, organizers)).value <= 100
    ensures reply.Some? && decode(Cleaned(reply.value)).Some? ==>
      var parsed := ScoreOf(decode(Cleaned(reply.value)).value);
      parsed.Some? && parsed.value <= 100 ==>
        parsed.value <= ScoreOf(AnalyzeEvent(text, reply, decode, organizers)).value
  {
    var theme, premium := MentionsTheme(text), MentionsPremium(text, organizers);
    if reply.Some? && decode(Cleaned(reply.value)).Some? {
      var v := decode(Cleaned(reply.value)).value;
      if ScoreOf(v).Some? {
        if ScoreOf(v).value <= 100 {
          BoostedBounds(ScoreOf(v).value, theme, premium);
        } else {
          BoostedSingleCap(ScoreOf(v).value, theme, premium);
        }
      }
    }
  }

  /** `analyze_file_content(text)`: the decoded value if it is a list, else the empty list. */
  function AnalyzeFileContent(reply: Option<string>, decode: string -> Option<Json>): (r: seq<Json>)
    ensures (reply.Some? && decode(Cleaned(reply.value)).Some? && decode(Cleaned(reply.value)).value.JArray?)
              ==> r == decode(Cleaned(reply.value)).value.items
    ensures !(reply.Some? && decode(Cleaned(reply.value)).Some? && decode(Cleaned(reply.value)).value.JArray?) ==> r == []
  {
    match reply
    case None => []
    case Some(content) =>
      match decode(Cleaned(content))
      case Some(JArray(items)) => items
      case _ => []
  }
}
