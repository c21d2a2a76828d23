/** The `telegram.go` bot: command dispatch, `sanitize`, the reply template,
    the trending selection with its single joined message, and the webhook
    handler as the trace of calls it makes to the outside world. */
module Telegram {
  import opened Results
  import opened Strings
  import opened Services
  import Params
  import ParamsExamples

  const TrendingCommand: string := "/trend"

  /** `defaulRepoLen`: the largest index the trending loop still renders. */
  const DefaultRepoLen: nat := 4

  /** What goes between two rendered repositories in the trending message. */
  const Separator: string := "\n-------------\n"

  const NoTrendingMessage: string := "there are not trending repos yet for today, try again later"
  const AllSentMessage: string := "all repos sent to chat"

  // ---------------------------------------------------------------------
  // sanitize

  /** `sanitize(s, botCommand)`: strips a leading command and the white space
      around what follows it. Text that does not start with the command is
      returned unchanged; only text shorter than the command is an error.
      Lengths count characters, which are bytes on ASCII text. */
  function Sanitize(s: string, command: string): (r: Result<string, string>)
    requires IsAscii(s)
    ensures r.Err? <==> |s| < |command|
    ensures r.Err? ==> r.error == "invalid command: " + s
    ensures r.Ok? && HasPrefix(s, command) ==> IsTrimmed(r.value) && |r.value| <= |s| - |command|
    ensures r.Ok? && !HasPrefix(s, command) ==> r.value == s
  {
    if |s| >= |command| then
      if s[..|command|] == command then Ok(TrimSpace(s[|command|..])) else Ok(s)
    else
      Err("invalid command: " + s)
  }

  /** The topic after a command is found again, whatever white space
      surrounds it. */
  lemma SanitizeRoundTrip(command: string, before: string, topic: string, after: string)
    requires IsAscii(command + before + topic + after)
    requires AllSpace(before) && AllSpace(after) && IsTrimmed(topic)
    ensures Sanitize(command + before + topic + after, command) == Ok(topic)
  {
    var s := command + before + topic + after;
    assert s[..|command|] == command;
    assert s[|command|..] == before + topic + after;
    TrimSpaceOfPadded(before, topic, after);
  }

  /** `v` occurs in `s` at `i`, with only white space between `lo` and it
      and after it. */
  predicate PaddedAt(s: string, lo: nat, v: string, i: nat) {
    lo <= i && i + |v| <= |s| && s[i..i + |v|] == v
    && AllSpace(s[lo..i]) && AllSpace(s[i + |v|..])
  }

  /** Conversely, what `Sanitize` returns after a command is the text after
      it with white space removed at both ends, and nothing else. */
  lemma SanitizeStripsOnlySpace(s: string, command: string)
    requires IsAscii(s) && HasPrefix(s, command)
    ensures Sanitize(s, command).Ok?
    ensures exists i :: PaddedAt(s, |command|, Sanitize(s, command).value, i)
  {
    var rest := s[|command|..];
    var v := TrimSpace(rest);
    assert Sanitize(s, command) == Ok(v);
    TrimSpaceInfix(rest);
    var i := |rest| - |TrimLeft(rest)|;
    assert s == command + rest;
    PaddedAfter(command, rest, v, i);
    assert PaddedAt(s, |command|, Sanitize(s, command).value, |command| + i);
  }

  lemma PaddedAfter(command: string, rest: string, v: string, i: nat)
    requires i + |v| <= |rest| && v == rest[i..i + |v|]
    requires AllSpace(rest[..i]) && AllSpace(rest[i + |v|..])
    ensures PaddedAt(command + rest, |command|, v, |command| + i)
  {
    SliceAfterPrefix(command, rest, i, i + |v|);
    SliceAfterPrefix(command, rest, 0, i);
    SliceAfterPrefix(command, rest, i + |v|, |rest|);
  }

  // ---------------------------------------------------------------------
  // Dispatch

  /** The handler the `switch` of `HandleTelegramWebhook` picks. */
  datatype Route = SearchRoute | TrendRoute | Ignored

  function Classify(text: string): (r: Route)
    ensures r == SearchRoute <==> HasPrefix(text, Params.SearchCommand)
    ensures r == TrendRoute <==> HasPrefix(text, TrendingCommand)
    ensures r == Ignored <==> !HasPrefix(text, Params.SearchCommand) && !HasPrefix(text, TrendingCommand)
  {
    CommandsDisjoint(text);
    if HasPrefix(text, Params.SearchCommand) then SearchRoute
    else if HasPrefix(text, TrendingCommand) then TrendRoute
    else Ignored
  }

  /** No text starts with both commands, so the order of the two cases of
      the `switch` does not matter. */
  lemma CommandsDisjoint(text: string)
    ensures !(HasPrefix(text, Params.SearchCommand) && HasPrefix(text, TrendingCommand))
  {
    if HasPrefix(text, Params.SearchCommand) && |text| >= |TrendingCommand| {
      assert text[..7][1] == text[1] == text[..6][1];
    }
  }

  /** A command that merely starts with `/search` still takes the search path. */
  lemma SearchPrefixWins()
    ensures Classify("/searchfoo") == SearchRoute
    ensures Classify("/trend golang") == TrendRoute
    ensures Classify("/unknown foo") == Ignored
  {
    assert "/searchfoo"[..7] == Params.SearchCommand;
    assert "/trend golang"[..6] == TrendingCommand;
    assert "/unknown foo"[1] != Params.SearchCommand[1];
    assert "/unknown foo"[1] != TrendingCommand[1];
  }

  // ---------------------------------------------------------------------
  // The reply template `templ`

  /** The record fields the template refers to. */
  datatype Field = FullName | Description | OwnerLogin | StargazersCount | HtmlUrl

  /** A piece of a template: literal text, or an action `{{.Field}}`. */
  datatype Segment = Literal(text: string) | Action(field: Field)

  /** `templ`: a leading line break, then four indented lines: the name
      and description, the author, the star count after a star emoji, and
      the URL. */
  const Templ: seq<Segment> := [
    Literal("\n  "), Action(FullName), Literal(": "), Action(Description),
    Literal("\n  Author: "), Action(OwnerLogin),
    Literal("\n  \U{2B50}: "), Action(StargazersCount),
    Literal("\n  "), Action(HtmlUrl), Literal("\n")]

  /** What an action prints: strings as they are, the star count in decimal. */
  function FieldText(r: RepoRecord, f: Field): string {
    match f
    case FullName => r.fullName
    case Description => r.description
    case OwnerLogin => r.ownerLogin
    case StargazersCount => Decimal(r.stargazersCount)
    case HtmlUrl => r.htmlUrl
  }

  /** What one segment prints for record `r`. */
  function SegmentText(g: Segment, r: RepoRecord): string {
    match g
    case Literal(text) => text
    case Action(f) => FieldText(r, f)
  }

  /** Executing a template: its segments in order, actions replaced by the
      record's fields. */
  function Execute(t: seq<Segment>, r: RepoRecord): string {
    if t == [] then "" else Execute(t[..|t| - 1], r) + SegmentText(t[|t| - 1], r)
  }

  /** `parseRepoToTemplate`: the reply for one repository. Every field of a
      `RepoRecord` is present, so executing the template cannot fail. */
  function Render(r: RepoRecord): (text: string)
    ensures |text| > 0
  {
    RenderLayout(r);
    Execute(Templ, r)
  }

  /** A longer part of a template prints a continuation of a shorter one. */
  lemma {:induction false} ExecuteGrows(t: seq<Segment>, k: nat, r: RepoRecord)
    requires k <= |t|
    ensures |Execute(t[..k], r)| <= |Execute(t, r)|
    ensures Execute(t, r)[..|Execute(t[..k], r)|] == Execute(t[..k], r)
    decreases |t| - k
  {
    if k == |t| {
      assert t[..k] == t;
    } else {
      ExecuteGrows(t, k + 1, r);
      ExecuteStep(t, k + 1, r);
      var p := Execute(t[..k], r);
      var q := Execute(t[..k + 1], r);
      assert q[..|p|] == p;
    }
  }

  lemma ExecuteStep(t: seq<Segment>, k: nat, r: RepoRecord)
    requires 0 < k <= |t|
    ensures Execute(t[..k], r) == Execute(t[..k - 1], r) + SegmentText(t[k - 1], r)
  {
    assert t[..k][..k - 1] == t[..k - 1];
  }

  /** The first line of a reply: the full name and the description. */
  lemma TemplHead(r: RepoRecord)
    ensures Execute(Templ[..4], r) == "\n  " + r.fullName + ": " + r.description
  {
    assert Templ[..0] == [];
    ExecuteStep(Templ, 1, r);
    ExecuteStep(Templ, 2, r);
    ExecuteStep(Templ, 3, r);
    ExecuteStep(Templ, 4, r);
  }

  /** The author line, and the start of the star line. */
  lemma TemplAuthor(r: RepoRecord)
    ensures Execute(Templ[..7], r)
         == Execute(Templ[..4], r) + "\n  Author: " + r.ownerLogin + "\n  \U{2B50}: "
    ensures Execute(Templ[..8], r) == Execute(Templ[..7], r) + Decimal(r.stargazersCount)
  {
    ExecuteStep(Templ, 5, r);
    ExecuteStep(Templ, 6, r);
    ExecuteStep(Templ, 7, r);
    ExecuteStep(Templ, 8, r);
  }

  /** The URL line that closes the reply. */
  lemma TemplTail(r: RepoRecord)
    ensures Execute(Templ[..9], r) == Execute(Templ[..8], r) + "\n  "
    ensures Execute(Templ, r) == Execute(Templ[..9], r) + r.htmlUrl + "\n"
  {
    ExecuteStep(Templ, 9, r);
    ExecuteStep(Templ, 10, r);
    ExecuteStep(Templ, 11, r);
    assert Templ[..11] == Templ;
  }

  /** The rendered reply is the template text with the five fields put in. */
  lemma RenderLayout(r: RepoRecord)
    ensures Execute(Templ, r)
         == "\n  " + r.fullName + ": " + r.description
            + "\n  Author: " + r.ownerLogin
            + "\n  \U{2B50}: " + Decimal(r.stargazersCount)
            + "\n  " + r.htmlUrl + "\n"
  {
    TemplHead(r);
    TemplAuthor(r);
    TemplTail(r);
  }

  /** Where the star count sits in the reply, and that reading it back
      gives the count. */
  lemma RenderStars(r: RepoRecord)
    ensures var o := 3 + |r.fullName| + 2 + |r.description| + 11 + |r.ownerLogin| + 6;
            var d := Decimal(r.stargazersCount);
            && o + |d| <= |Render(r)|
            && Render(r)[o..o + |d|] == d
            && DigitsValue(Render(r)[o..o + |d|]) == r.stargazersCount
  {
    StarsOffset(r);
    StarsSlice(r);
    DecimalRoundTrip(r.stargazersCount);
  }

  lemma StarsOffset(r: RepoRecord)
    ensures |Execute(Templ[..7], r)| == 3 + |r.fullName| + 2 + |r.description| + 11 + |r.ownerLogin| + 6
  {
    TemplHead(r);
    TemplAuthor(r);
  }

  lemma StarsSlice(r: RepoRecord)
    ensures var o := |Execute(Templ[..7], r)|;
            var d := Decimal(r.stargazersCount);
            o + |d| <= |Render(r)| && Render(r)[o..o + |d|] == d
  {
    TemplAuthor(r);
    ExecuteGrows(Templ, 8, r);
    var a := Execute(Templ[..7], r);
    var d := Decimal(r.stargazersCount);
    var e := Execute(Templ[..8], r);
    assert Render(r)[|a|..|a| + |d|] == e[|a|..|a| + |d|];
  }

  /** The reply starts with the full name and ends with the URL. */
  lemma RenderEnds(r: RepoRecord)
    ensures 3 + |r.fullName| <= |Render(r)| && Render(r)[3..3 + |r.fullName|] == r.fullName
    ensures |r.htmlUrl| + 1 <= |Render(r)|
    ensures Render(r)[|Render(r)| - |r.htmlUrl| - 1..] == r.htmlUrl + "\n"
  {
    TemplHead(r);
    TemplTail(r);
    var h := Execute(Templ[..4], r);
    var m := Execute(Templ[..9], r);
    assert Render(r)[..|h|] == h by {
      ExecuteGrows(Templ, 4, r);
    }
    assert h[3..3 + |r.fullName|] == r.fullName;
    assert Render(r) == m + (r.htmlUrl + "\n");
  }

  /** The record of the template test: its reply is not empty, opens with
      the full name and shows 700 stars. */
  lemma RenderTestRecord()
    ensures var r := RepoRecord("danvergara/dblab",
                                "The database client every command line junkie deserves.",
                                "danvergara", 700, "");
            var o := 3 + |r.fullName| + 2 + |r.description| + 11 + |r.ownerLogin| + 6;
            && |Render(r)| > 0
            && o + 3 <= |Render(r)|
            && Render(r)[3..3 + |r.fullName|] == "danvergara/dblab"
            && Render(r)[o..o + 3] == "700"
  {
    var r := RepoRecord("danvergara/dblab",
                        "The database client every command line junkie deserves.",
                        "danvergara", 700, "");
    RenderEnds(r);
    RenderStars(r);
    assert Decimal(700) == "700" by {
      assert Decimal(7) == "7";
      assert Decimal(70) == "70";
    }
  }

  /** The template engine on the constant template: it always succeeds. */
  function TemplateRender(r: RepoRecord): (out: Result<string, string>)
    ensures out.Ok? && out.value == Render(r)
  {
    Ok(Render(r))
  }

  // ---------------------------------------------------------------------
  // Trending: selection, rendering, one joined message

  /** No record occurs twice. */
  predicate Distinct(xs: seq<RepoRecord>) {
    forall i, j :: 0 <= i < j < |xs| ==> xs[i] != xs[j]
  }

  /** The records the trending loop renders: those at index 0 through
      `DefaultRepoLen` of the shuffled list, in shuffled order. */
  function Selected(shuffled: seq<RepoRecord>): seq<RepoRecord> {
    shuffled[..Cap(|shuffled|, DefaultRepoLen + 1)]
  }

  /** Renders `xs` in order and stops at the first record that fails, as the
      loop of `formatReposContentAndSend` does. */
  function RenderAll(xs: seq<RepoRecord>, render: RepoRecord -> Result<string, string>)
    : (r: Result<seq<string>, string>)
    ensures r.Ok? <==> forall i :: 0 <= i < |xs| ==> render(xs[i]).Ok?
    ensures r.Ok? ==> |r.value| == |xs| && forall i :: 0 <= i < |xs| ==> render(xs[i]) == Ok(r.value[i])
    decreases |xs|
  {
    if xs == [] then Ok([])
    else
      var init := xs[..|xs| - 1];
      assert forall i :: 0 <= i < |init| ==> init[i] == xs[i];
      match RenderAll(init, render)
      case Err(e) => Err(e)
      case Ok(cs) =>
        match render(xs[|xs| - 1])
        case Err(e) => Err(e)
        case Ok(c) => Ok(cs + [c])
  }

  /** A failure is the error of the first record that fails. */
  lemma {:induction false} RenderAllFirstFailure(xs: seq<RepoRecord>, render: RepoRecord -> Result<string, string>, j: nat)
    requires j < |xs| && render(xs[j]).Err?
    requires forall i :: 0 <= i < j ==> render(xs[i]).Ok?
    ensures RenderAll(xs, render) == Err(render(xs[j]).error)
    decreases |xs|
  {
    var init := xs[..|xs| - 1];
    if j < |xs| - 1 {
      assert init[j] == xs[j];
      assert forall i :: 0 <= i < j ==> init[i] == xs[i];
      RenderAllFirstFailure(init, render, j);
    } else {
      assert forall i :: 0 <= i < |init| ==> init[i] == xs[i];
    }
  }

  /** The reply of one trending call: what it returns and the texts it sent,
      in order. */
  datatype Outcome = Outcome(reply: string, err: Option<string>, sent: seq<string>)

  /** A reference statement of `formatReposContentAndSend` over the shuffled
      records: render the selection, stop on the first render error after
      reporting it, refuse an empty selection, otherwise send one joined
      message. */
  function Format(shuffled: seq<RepoRecord>, render: RepoRecord -> Result<string, string>,
                  send: nat -> SendResult): Outcome
  {
    match RenderAll(Selected(shuffled), render)
    case Err(e) => Outcome("", Some(e), [e])
    case Ok(contents) =>
      if contents == [] then Outcome("", Some(NoTrendingMessage), [])
      else
        var text := Join(contents, Separator);
        match send(0)
        case Failed(reason) => Outcome("", Some(reason), [text])
        case Delivered => Outcome(AllSentMessage, None, [text])
  }

  /** `formatReposContentAndSend` after the shuffle: the loop visits every
      record but renders only indices up to `DefaultRepoLen`. `send(n)` is the
      outcome of the `n`-th message sent. */
  method FormatReposContentAndSend(shuffled: seq<RepoRecord>, render: RepoRecord -> Result<string, string>,
                                   send: nat -> SendResult)
    returns (reply: string, err: Option<string>, sent: seq<string>)
    ensures Outcome(reply, err, sent) == Format(shuffled, render, send)
  {
    var contents: seq<string> := [];
    var i := 0;
    while i < |shuffled|
      invariant 0 <= i <= |shuffled|
      invariant RenderAll(shuffled[..Cap(i, DefaultRepoLen + 1)], render) == Ok(contents)
    {
      if i <= DefaultRepoLen {
        var out := render(shuffled[i]);
        if out.Err? {
          assert forall k :: 0 <= k < i ==> Selected(shuffled)[k] == shuffled[..i][k];
          RenderAllFirstFailure(Selected(shuffled), render, i);
          return "", Some(out.error), [out.error];
        }
        assert shuffled[..i + 1][..i] == shuffled[..i];
        contents := contents + [out.value];
      }
      i := i + 1;
    }
    assert shuffled[..Cap(i, DefaultRepoLen + 1)] == Selected(shuffled);
    if |contents| == 0 {
      return "", Some(NoTrendingMessage), [];
    }
    var text := Join(contents, Separator);
    sent := [text];
    match send(0) {
      case Failed(reason) =>
        reply, err := "", Some(reason);
      case Delivered =>
        reply, err := AllSentMessage, None;
    }
  }

  /** The replies for `xs` with the constant template, in order. */
  function Texts(xs: seq<RepoRecord>): (ts: seq<string>)
    ensures |ts| == |xs| && forall i :: 0 <= i < |xs| ==> ts[i] == Render(xs[i])
  {
    if xs == [] then [] else [Render(xs[0])] + Texts(xs[1..])
  }

  /** The single message of a trending reply. */
  function TrendingMessage(shuffled: seq<RepoRecord>): string {
    Join(Texts(Selected(shuffled)), Separator)
  }

  /** With the constant template no record fails to render. */
  lemma RenderAllTemplate(xs: seq<RepoRecord>)
    ensures RenderAll(xs, TemplateRender) == Ok(Texts(xs))
  {
    var r := RenderAll(xs, TemplateRender);
    assert r.Ok?;
    assert r.value == Texts(xs);
  }

  /** A render error at an index the loop reaches is reported to the chat
      and returned, and nothing else is sent. */
  lemma FormatAbortsOnRenderError(shuffled: seq<RepoRecord>, render: RepoRecord -> Result<string, string>,
                                  send: nat -> SendResult, j: nat)
    requires j <= DefaultRepoLen && j < |shuffled| && render(shuffled[j]).Err?
    requires forall i :: 0 <= i < j ==> render(shuffled[i]).Ok?
    ensures Format(shuffled, render, send)
         == Outcome("", Some(render(shuffled[j]).error), [render(shuffled[j]).error])
  {
    var sel := Selected(shuffled);
    assert sel[j] == shuffled[j];
    assert forall i :: 0 <= i < j ==> sel[i] == shuffled[i];
    RenderAllFirstFailure(sel, render, j);
  }

  /** Nothing to show: no message is sent and the call fails with the
      "try again later" error. */
  lemma FormatEmpty(render: RepoRecord -> Result<string, string>, send: nat -> SendResult)
    ensures Format([], render, send) == Outcome("", Some(NoTrendingMessage), [])
  {
    assert Selected([]) == [];
  }

  /** With records to show, exactly one message is sent, and the call
      succeeds exactly when that message is delivered. */
  lemma FormatSendsOnce(shuffled: seq<RepoRecord>, send: nat -> SendResult)
    requires shuffled != []
    ensures Format(shuffled, TemplateRender, send).sent == [TrendingMessage(shuffled)]
    ensures Format(shuffled, TemplateRender, send).err.None? <==> send(0).Delivered?
    ensures send(0).Delivered? ==> Format(shuffled, TemplateRender, send).reply == AllSentMessage
    ensures send(0).Failed? ==> Format(shuffled, TemplateRender, send).err == Some(send(0).reason)
  {
    RenderAllTemplate(Selected(shuffled));
    assert |Texts(Selected(shuffled))| > 0;
  }

  /** The joined message holds the reply of every selected record, in
      shuffled order, with the separator between neighbours. */
  lemma TrendingMessageLayout(shuffled: seq<RepoRecord>, i: nat)
    requires i < |Selected(shuffled)|
    ensures var ts := Texts(Selected(shuffled));
            var o := Offset(ts, Separator, i);
            && o + |Render(Selected(shuffled)[i])| <= |TrendingMessage(shuffled)|
            && TrendingMessage(shuffled)[o..o + |Render(Selected(shuffled)[i])|] == Render(Selected(shuffled)[i])
            && (i + 1 < |ts| ==>
                  Offset(ts, Separator, i + 1) <= |TrendingMessage(shuffled)|
                  && TrendingMessage(shuffled)[o + |ts[i]|..Offset(ts, Separator, i + 1)] == Separator)
  {
    JoinLayout(Texts(Selected(shuffled)), Separator, i);
  }

  // Selection as a multiset argument

  lemma {:induction false} DistinctCount(xs: seq<RepoRecord>, x: RepoRecord)
    requires Distinct(xs)
    ensures multiset(xs)[x] <= 1
    decreases |xs|
  {
    if xs != [] {
      var init := xs[..|xs| - 1];
      assert xs == init + [xs[|xs| - 1]];
      assert Distinct(init);
      DistinctCount(init, x);
      if x == xs[|xs| - 1] {
        assert x !in init;
      }
    }
  }

  lemma DuplicateCount(xs: seq<RepoRecord>, i: nat, j: nat)
    requires i < j < |xs| && xs[i] == xs[j]
    ensures multiset(xs)[xs[i]] >= 2
  {
    var a := xs[..j];
    var b := xs[j..];
    assert xs == a + b;
    assert a[i] == xs[i];
    assert b[0] == xs[j];
    assert multiset(a)[xs[i]] >= 1 && multiset(b)[xs[i]] >= 1;
  }

  /** Reordering keeps records distinct. */
  lemma PermutationKeepsDistinct(a: seq<RepoRecord>, b: seq<RepoRecord>)
    requires multiset(a) == multiset(b) && Distinct(b)
    ensures Distinct(a)
  {
    forall i, j | 0 <= i < j < |a|
      ensures a[i] != a[j]
    {
      if a[i] == a[j] {
        DuplicateCount(a, i, j);
        DistinctCount(b, a[i]);
        assert false;
      }
    }
  }

  /** The selection from a shuffle of `repos`: `min(|repos|, 5)` of its
      records, each drawn from `repos`, all of them when there are at most
      five, and none twice when `repos` has no duplicates. */
  lemma SelectionFromShuffle(repos: seq<RepoRecord>, shuffled: seq<RepoRecord>)
    requires multiset(shuffled) == multiset(repos)
    ensures |Selected(shuffled)| == Cap(|repos|, DefaultRepoLen + 1)
    ensures multiset(Selected(shuffled)) <= multiset(repos)
    ensures Selected(shuffled) == [] <==> repos == []
    ensures |repos| <= DefaultRepoLen + 1 ==> multiset(Selected(shuffled)) == multiset(repos)
    ensures Distinct(repos) ==> Distinct(Selected(shuffled))
  {
    assert |multiset(shuffled)| == |shuffled| && |multiset(repos)| == |repos|;
    var k := Cap(|shuffled|, DefaultRepoLen + 1);
    assert shuffled == shuffled[..k] + shuffled[k..];
    if Distinct(repos) {
      PermutationKeepsDistinct(shuffled, repos);
    }
  }

  // ---------------------------------------------------------------------
  // The webhook handler

  /** The `/search` case: extract the parameters, look the repository up,
      send its reply, and report a failed send with a second message. */
  function SearchEffects(w: World, chatId: int, text: string): (es: seq<Effect>)
    requires IsAscii(text) && NoNewline(text)
    ensures 0 < |es| <= 3
    ensures es[0].FindRepo? <==> Params.ExtractParams(text).err.None?
    ensures es[0].FindRepo? ==> var x := Params.ExtractParams(text); es[0] == FindRepo(x.repo, x.lang, x.author)
    ensures forall i :: 0 <= i < |es| && i != 0 ==> es[i].Send? && es[i].chatId == chatId
    ensures !es[0].FindRepo? ==> es[0].Send? && es[0].chatId == chatId && |es| == 1
  {
    var x := Params.ExtractParams(text);
    if x.err.Some? then [Send(chatId, Params.ErrorMessage(x.err.value))]
    else
      [FindRepo(x.repo, x.lang, x.author)] +
      match w.findRepo(x.repo, x.lang, x.author)
      case Err(e) => [Send(chatId, e)]
      case Ok(rec) =>
        [Send(chatId, Render(rec))] +
        match w.send(0)
        case Failed(reason) => [Send(chatId, reason)]
        case Delivered => []
  }

  /** The `/trend` case: the topic is the trimmed text after the command;
      the trending records are shuffled and formatted, and an error is
      sent to the chat once more by the handler. */
  function TrendEffects(w: World, chatId: int, text: string): (es: seq<Effect>)
    requires IsAscii(text)
    ensures |es| > 0
    ensures HasPrefix(text, TrendingCommand) ==> es[0] == FindTrending(TrimSpace(text[|TrendingCommand|..]))
    ensures forall i :: 0 <= i < |es| && i != 0 ==> es[i].Send? && es[i].chatId == chatId
  {
    TrendSanitizes(text);
    match Sanitize(text, TrendingCommand)
    case Err(e) => [Send(chatId, e)]
    case Ok(topic) =>
      [FindTrending(topic)] +
      match w.findTrending(topic)
      case Err(e) => [Send(chatId, e)]
      case Ok(repos) =>
        var out := Format(w.shuffle(repos), TemplateRender, w.send);
        Sends(chatId, out.sent) + (if out.err.Some? then [Send(chatId, out.err.value)] else [])
  }

  /** `HandleTelegramWebhook` for a decoded message: the calls it makes, in
      order. */
  function HandleWebhook(w: World, chatId: int, text: string): (effects: seq<Effect>)
    requires IsAscii(text) && (HasPrefix(text, Params.SearchCommand) ==> NoNewline(text))
    ensures effects == [] <==> Classify(text) == Ignored
    ensures Classify(text) == SearchRoute ==> effects[0].FindRepo? || effects[0].Send?
    ensures Classify(text) == TrendRoute ==> effects[0].FindTrending?
  {
    match Classify(text)
    case SearchRoute => SearchEffects(w, chatId, text)
    case TrendRoute => TrendEffects(w, chatId, text)
    case Ignored => []
  }

  lemma SearchRepliesToSender(w: World, chatId: int, text: string)
    requires IsAscii(text) && NoNewline(text)
    ensures forall e :: e in SearchEffects(w, chatId, text) && e.Send? ==> e.chatId == chatId
  {
  }

  lemma TrendRepliesToSender(w: World, chatId: int, text: string)
    requires IsAscii(text)
    ensures forall e :: e in TrendEffects(w, chatId, text) && e.Send? ==> e.chatId == chatId
  {
    match Sanitize(text, TrendingCommand)
    case Err(_) =>
    case Ok(topic) =>
      match w.findTrending(topic)
      case Err(_) =>
      case Ok(repos) =>
        var out := Format(w.shuffle(repos), TemplateRender, w.send);
        var es := Sends(chatId, out.sent);
        assert forall e :: e in es ==> e.chatId == chatId;
  }

  /** Every message the handler sends goes to the chat the update came from. */
  lemma RepliesToSender(w: World, chatId: int, text: string)
    requires IsAscii(text) && (HasPrefix(text, Params.SearchCommand) ==> NoNewline(text))
    ensures forall e :: e in HandleWebhook(w, chatId, text) && e.Send? ==> e.chatId == chatId
  {
    match Classify(text)
    case SearchRoute => SearchRepliesToSender(w, chatId, text);
    case TrendRoute => TrendRepliesToSender(w, chatId, text);
    case Ignored =>
  }

  /** The error branch after `sanitize` on the `/trend` path is dead: a
      trend command is at least as long as the command it starts with, so
      its topic is always the trimmed rest. */
  lemma TrendSanitizes(text: string)
    requires IsAscii(text)
    ensures HasPrefix(text, TrendingCommand) ==> Sanitize(text, TrendingCommand) == Ok(TrimSpace(text[|TrendingCommand|..]))
  {
  }

  /** `/search <name>`: the lookup is asked for `(name, "", "")` and, when it
      succeeds, exactly one message, the record's reply, goes to the chat. */
  lemma SearchScenario(w: World, chatId: int, n: string, rec: RepoRecord)
    requires Params.IsName(n)
    requires w.findRepo(n, "", "") == Ok(rec) && w.send(0) == Delivered
    ensures IsAscii("/search " + n) && NoNewline("/search " + n)
    ensures HandleWebhook(w, chatId, "/search " + n) == [FindRepo(n, "", ""), Send(chatId, Render(rec))]
  {
    ParamsExamples.SearchNamePlain(n);
    ParamsExamples.OnlyRepo(n);
    assert ("/search " + n)[..7] == Params.SearchCommand;
  }

  /** The scenario for `/search dblab` from chat 42: the reply carries the
      record's full name right after its leading line break and indent. */
  lemma SearchDblab(w: World, rec: RepoRecord)
    requires w.findRepo("dblab", "", "") == Ok(rec) && w.send(0) == Delivered
    ensures HandleWebhook(w, 42, "/search " + "dblab") == [FindRepo("dblab", "", ""), Send(42, Render(rec))]
    ensures 3 + |rec.fullName| <= |Render(rec)| && Render(rec)[3..3 + |rec.fullName|] == rec.fullName
  {
    SearchScenario(w, 42, "dblab", rec);
    RenderEnds(rec);
  }

  /** A `/search` whose parameters cannot be extracted is answered with
      the error alone, and no lookup is made. */
  lemma SearchRejected(w: World, chatId: int, text: string)
    requires IsAscii(text) && NoNewline(text) && HasPrefix(text, Params.SearchCommand)
    requires Params.ExtractParams(text).err.Some?
    ensures HandleWebhook(w, chatId, text)
         == [Send(chatId, Params.ErrorMessage(Params.RepoNotFound(TrimSpace(text))))]
  {
  }

  /** `/trend <topic>` with more than five trending records: one message to
      the chat holding five distinct records drawn from them. */
  lemma TrendScenario(w: World, chatId: int, topic: string, repos: seq<RepoRecord>)
    requires IsAscii(TrendingCommand + " " + topic) && !HasPrefix(TrendingCommand + " " + topic, Params.SearchCommand)
    requires IsTrimmed(topic)
    requires w.findTrending(topic) == Ok(repos) && w.send(0) == Delivered && ShufflesOnly(w)
    requires |repos| > DefaultRepoLen + 1 && Distinct(repos)
    ensures var sel := Selected(w.shuffle(repos));
            && HandleWebhook(w, chatId, TrendingCommand + " " + topic)
               == [FindTrending(topic), Send(chatId, TrendingMessage(w.shuffle(repos)))]
            && |sel| == DefaultRepoLen + 1 && Distinct(sel) && multiset(sel) <= multiset(repos)
  {
    var text := TrendingCommand + " " + topic;
    assert text == TrendingCommand + " " + topic + "";
    SanitizeRoundTrip(TrendingCommand, " ", topic, "");
    assert text[..6] == TrendingCommand;
    assert Classify(text) == TrendRoute;
    var shuffled := w.shuffle(repos);
    SelectionFromShuffle(repos, shuffled);
    assert shuffled != [] by { assert |multiset(shuffled)| == |multiset(repos)|; }
    FormatSendsOnce(shuffled, w.send);
    var msg := TrendingMessage(shuffled);
    assert Format(shuffled, TemplateRender, w.send) == Outcome(AllSentMessage, None, [msg]);
    assert Sends(chatId, [msg]) == [Send(chatId, msg)];
    assert TrendEffects(w, chatId, text) == [FindTrending(topic)] + [Send(chatId, msg)] + [];
  }

  /** The scenario for `/trend golang` with eight candidates. */
  lemma TrendGolang(w: World, repos: seq<RepoRecord>)
    requires w.findTrending("golang") == Ok(repos) && w.send(0) == Delivered && ShufflesOnly(w)
    requires |repos| == 8 && Distinct(repos)
    ensures |Selected(w.shuffle(repos))| == 5 && Distinct(Selected(w.shuffle(repos)))
    ensures multiset(Selected(w.shuffle(repos))) <= multiset(repos)
    ensures HandleWebhook(w, 42, TrendingCommand + " " + "golang")
         == [FindTrending("golang"), Send(42, TrendingMessage(w.shuffle(repos)))]
  {
    assert (TrendingCommand + " " + "golang")[1] != Params.SearchCommand[1];
    TrendScenario(w, 42, "golang", repos);
  }

  /** No trending records: the chat is told to try again later. */
  lemma TrendNothingFound(w: World, chatId: int, topic: string)
    requires IsAscii(TrendingCommand + " " + topic) && !HasPrefix(TrendingCommand + " " + topic, Params.SearchCommand)
    requires IsTrimmed(topic)
    requires w.findTrending(topic) == Ok([]) && ShufflesOnly(w)
    ensures HandleWebhook(w, chatId, TrendingCommand + " " + topic)
         == [FindTrending(topic), Send(chatId, NoTrendingMessage)]
  {
    var text := TrendingCommand + " " + topic;
    assert text == TrendingCommand + " " + topic + "";
    SanitizeRoundTrip(TrendingCommand, " ", topic, "");
    assert text[..6] == TrendingCommand;
    CommandsDisjoint(text);
    assert |multiset(w.shuffle([]))| == 0;
    FormatEmpty(TemplateRender, w.send);
  }

  /** A multi-line trend command is trimmed and looked up as it stands:
      the newline stays inside the topic. */
  lemma TrendKeepsNewline(w: World)
    ensures IsAscii("/trend go\nx") && !HasPrefix("/trend go\nx", Params.SearchCommand)
    ensures HandleWebhook(w, 42, "/trend go\nx")[0] == FindTrending("go\nx")
  {
    var text := "/trend go\nx";
    assert text[1] != Params.SearchCommand[1];
    assert text[..6] == TrendingCommand;
    assert text == TrendingCommand + " " + "go\nx" + "";
    SanitizeRoundTrip(TrendingCommand, " ", "go\nx", "");
    assert Classify(text) == TrendRoute;
    assert TrendEffects(w, 42, text)[0] == FindTrending("go\nx");
  }

  /** A failed repository lookup is reported to the chat with its own
      error text, and nothing else is sent. */
  lemma SearchLookupFails(w: World, chatId: int, text: string, n: string, l: string, a: string, e: string)
    requires IsAscii(text) && NoNewline(text) && HasPrefix(text, Params.SearchCommand)
    requires Params.ExtractParams(text) == Params.Extracted(n, l, a, None)
    requires w.findRepo(n, l, a) == Err(e)
    ensures HandleWebhook(w, chatId, text) == [FindRepo(n, l, a), Send(chatId, e)]
  {
  }

  /** The rendered reply is sent; when that send fails, its error text is
      sent to the chat as a second message. */
  lemma SearchReplySent(w: World, chatId: int, text: string, n: string, l: string, a: string, rec: RepoRecord)
    requires IsAscii(text) && NoNewline(text) && HasPrefix(text, Params.SearchCommand)
    requires Params.ExtractParams(text) == Params.Extracted(n, l, a, None)
    requires w.findRepo(n, l, a) == Ok(rec)
    ensures w.send(0).Delivered? ==>
              HandleWebhook(w, chatId, text) == [FindRepo(n, l, a), Send(chatId, Render(rec))]
    ensures w.send(0).Failed? ==>
              HandleWebhook(w, chatId, text)
              == [FindRepo(n, l, a), Send(chatId, Render(rec)), Send(chatId, w.send(0).reason)]
  {
  }

  /** A failed trending lookup is reported to the chat with its own error
      text, and nothing else is sent. */
  lemma TrendLookupFails(w: World, chatId: int, text: string, e: string)
    requires IsAscii(text) && HasPrefix(text, TrendingCommand) && !HasPrefix(text, Params.SearchCommand)
    requires w.findTrending(TrimSpace(text[|TrendingCommand|..])) == Err(e)
    ensures HandleWebhook(w, chatId, text)
         == [FindTrending(TrimSpace(text[|TrendingCommand|..])), Send(chatId, e)]
  {
    TrendSanitizes(text);
  }

  /** With trending records, the joined message is sent; when that send
      fails, its error text is sent to the chat as a second message. */
  lemma TrendMessageSent(w: World, chatId: int, text: string, repos: seq<RepoRecord>)
    requires IsAscii(text) && HasPrefix(text, TrendingCommand) && !HasPrefix(text, Params.SearchCommand)
    requires w.findTrending(TrimSpace(text[|TrendingCommand|..])) == Ok(repos)
    requires repos != [] && ShufflesOnly(w)
    ensures var topic := TrimSpace(text[|TrendingCommand|..]);
            var msg := TrendingMessage(w.shuffle(repos));
            && (w.send(0).Delivered? ==>
                  HandleWebhook(w, chatId, text) == [FindTrending(topic), Send(chatId, msg)])
            && (w.send(0).Failed? ==>
                  HandleWebhook(w, chatId, text)
                  == [FindTrending(topic), Send(chatId, msg), Send(chatId, w.send(0).reason)])
  {
    TrendSanitizes(text);
    var shuffled := w.shuffle(repos);
    assert shuffled != [] by { assert |multiset(shuffled)| == |multiset(repos)|; }
    FormatSendsOnce(shuffled, w.send);
    var msg := TrendingMessage(shuffled);
    assert Sends(chatId, [msg]) == [Send(chatId, msg)];
  }

  /** Any other text is only logged: no lookup and no message. */
  lemma UnknownCommand(w: World)
    ensures HandleWebhook(w, 42, "/unknown foo") == []
  {
    SearchPrefixWins();
  }
}
