/** The `telegram_experiment.go` variant of the bot: every message must
    start with `/search`, the rest of the text is the trending topic as it
    stands, and up to ten rendered records are sent one message each,
    carrying on past failed sends. */
module Experiment {
  import opened Results
  import opened Strings
  import opened Services
  import Params

  /** `defaulRepoLen` of this variant: at most this many records are sent. */
  const RepoLimit: nat := 10

  const UsageMessage: string := "invalid value: you must enter /search {languague}"
  const AllSentMessage: string := "all repos sent to chat"

  /** `sanitize(s)`: the text after `/search`, untrimmed; anything else is
      refused with the usage message. Only a text starting with `/search`
      is accepted, so counting bytes or characters gives the same answer. */
  function Sanitize(s: string): (r: Result<string, string>)
    ensures r.Ok? <==> HasPrefix(s, Params.SearchCommand)
    ensures r.Err? ==> r.error == UsageMessage
  {
    if |s| >= |Params.SearchCommand| then
      if s[..|Params.SearchCommand|] == Params.SearchCommand then Ok(s[|Params.SearchCommand|..])
      else Err(UsageMessage)
    else Err(UsageMessage)
  }

  /** What is accepted is exactly the command followed by the returned text. */
  lemma SanitizeRoundTrip(s: string)
    requires Sanitize(s).Ok?
    ensures Params.SearchCommand + Sanitize(s).value == s
  {
  }

  /** Whatever follows the command comes back as it is, white space included. */
  lemma SanitizeKeepsRest(rest: string)
    ensures Sanitize(Params.SearchCommand + rest) == Ok(rest)
  {
    assert (Params.SearchCommand + rest)[..7] == Params.SearchCommand;
    assert (Params.SearchCommand + rest)[7..] == rest;
  }

  lemma SanitizeExamples()
    ensures Sanitize("/search go") == Ok(" go")
    ensures Sanitize("/trend go") == Err(UsageMessage)
    ensures Sanitize("/sear") == Err(UsageMessage)
  {
    SanitizeKeepsRest(" go");
    assert "/search" + " go" == "/search go";
    assert "/trend go"[..7][1] != Params.SearchCommand[1];
  }

  // ---------------------------------------------------------------------
  // formatReposContentandSend

  /** What executing the file template on one record gives: the buffer's
      text, and the engine's error if it stopped part way. */
  datatype Rendered = Rendered(text: string, failure: Option<string>)

  /** The error notices the render loop sends, in item order. */
  function Notices(xs: seq<RepoRecord>, render: RepoRecord -> Rendered): (ns: seq<string>)
    ensures |ns| <= |xs|
    decreases |xs|
  {
    if xs == [] then []
    else
      var last := render(xs[|xs| - 1]);
      Notices(xs[..|xs| - 1], render) + (if last.failure.Some? then [last.failure.value] else [])
  }

  /** A notice is sent exactly when some item fails to render. */
  lemma {:induction false} NoticesEmpty(xs: seq<RepoRecord>, render: RepoRecord -> Rendered)
    ensures Notices(xs, render) == [] <==> forall i :: 0 <= i < |xs| ==> render(xs[i]).failure.None?
    decreases |xs|
  {
    if xs != [] {
      var init := xs[..|xs| - 1];
      assert forall i :: 0 <= i < |init| ==> init[i] == xs[i];
      NoticesEmpty(init, render);
    }
  }

  /** The rendered text of every item, in item order, failed or not. */
  function Contents(xs: seq<RepoRecord>, render: RepoRecord -> Rendered): (cs: seq<string>)
    ensures |cs| == |xs|
  {
    if xs == [] then [] else Contents(xs[..|xs| - 1], render) + [render(xs[|xs| - 1]).text]
  }

  /** One rendered string per item, in item order. */
  lemma {:induction false} ContentsAt(xs: seq<RepoRecord>, render: RepoRecord -> Rendered, i: nat)
    requires i < |xs|
    ensures Contents(xs, render)[i] == render(xs[i]).text
    decreases |xs|
  {
    if i < |xs| - 1 {
      ContentsAt(xs[..|xs| - 1], render, i);
    }
  }

  /** The reply of one call: what it returns and the texts it sent, in order. */
  datatype Outcome = Outcome(reply: string, err: Option<string>, sent: seq<string>)

  /** A reference statement of the function: the notices, then the first
      `min(n, 10)` rendered items; the send outcomes change nothing. */
  function Format(items: seq<RepoRecord>, render: RepoRecord -> Rendered): Outcome {
    Outcome(AllSentMessage, None,
            Notices(items, render) + Contents(items, render)[..Cap(|items|, RepoLimit)])
  }

  /** The items among the first `n` whose send failed, when the first item
      message is send number `base`. */
  function FailedItems(send: nat -> SendResult, base: nat, n: nat): (f: set<nat>)
    ensures forall k: nat :: k in f <==> k < n && send(base + k).Failed?
  {
    if n == 0 then {}
    else FailedItems(send, base, n - 1) + (if send(base + n - 1).Failed? then {n - 1} else {})
  }

  /** The render loop: every item is rendered, a failure is announced,
      and the text is kept either way. */
  method RenderItems(items: seq<RepoRecord>, render: RepoRecord -> Rendered)
    returns (notices: seq<string>, contents: seq<string>)
    ensures notices == Notices(items, render) && contents == Contents(items, render)
  {
    notices, contents := [], [];
    var i := 0;
    while i < |items|
      invariant 0 <= i <= |items|
      invariant notices == Notices(items[..i], render)
      invariant contents == Contents(items[..i], render)
    {
      var out := render(items[i]);
      assert items[..i + 1][..i] == items[..i];
      if out.failure.Some? {
        notices := notices + [out.failure.value];
      }
      contents := contents + [out.text];
      i := i + 1;
    }
    assert items[..i] == items;
  }

  /** The send loop: each of the first `count` texts is sent once, in order,
      whatever the earlier sends reported; the first is send number `base`. */
  method SendItems(contents: seq<string>, count: nat, send: nat -> SendResult, base: nat)
    returns (sent: seq<string>, failed: set<nat>)
    requires count <= |contents|
    ensures sent == contents[..count]
    ensures failed == FailedItems(send, base, count)
  {
    sent, failed := [], {};
    var j := 0;
    while j < count
      invariant 0 <= j <= count
      invariant sent == contents[..j]
      invariant failed == FailedItems(send, base, j)
    {
      assert contents[..j + 1] == contents[..j] + [contents[j]];
      var outcome := send(base + j);
      sent := sent + [contents[j]];
      if outcome.Failed? {
        failed := failed + {j};
      }
      j := j + 1;
    }
  }

  /** `formatReposContentandSend`: render every item, then send the first
      `min(n, 10)` of them. `send(n)` is the outcome of the `n`-th message
      sent; `failed` lists the items whose send failed and was logged. */
  method FormatReposContentandSend(items: seq<RepoRecord>, render: RepoRecord -> Rendered,
                                   send: nat -> SendResult)
    returns (reply: string, err: Option<string>, sent: seq<string>, failed: set<nat>)
    ensures Outcome(reply, err, sent) == Format(items, render)
    ensures reply == AllSentMessage && err == None
    ensures failed == FailedItems(send, |Notices(items, render)|, Cap(|items|, RepoLimit))
  {
    var notices, contents := RenderItems(items, render);
    var repoLen := if |contents| <= RepoLimit then |contents| else RepoLimit;
    var itemsSent;
    itemsSent, failed := SendItems(contents, repoLen, send, |notices|);
    sent := notices + itemsSent;
    reply, err := AllSentMessage, None;
  }

  /** The number of messages sent is the number of notices plus
      `min(n, 10)`, and the item messages are the first ones in order. */
  lemma FormatSendCount(items: seq<RepoRecord>, render: RepoRecord -> Rendered)
    ensures var sent := Format(items, render).sent;
            var ns := Notices(items, render);
            && |sent| == |ns| + Cap(|items|, RepoLimit)
            && forall i :: 0 <= i < Cap(|items|, RepoLimit) ==> sent[|ns| + i] == render(items[i]).text
  {
    var ns := Notices(items, render);
    var cs := Contents(items, render)[..Cap(|items|, RepoLimit)];
    var sent := Format(items, render).sent;
    assert sent == ns + cs;
    forall i | 0 <= i < Cap(|items|, RepoLimit)
      ensures sent[|ns| + i] == render(items[i]).text
    {
      assert sent[|ns| + i] == cs[i];
      ContentsAt(items, render, i);
    }
  }

  /** With no render error nothing but the items is sent. */
  lemma FormatCleanRun(items: seq<RepoRecord>, render: RepoRecord -> Rendered)
    requires forall i :: 0 <= i < |items| ==> render(items[i]).failure.None?
    ensures Format(items, render).sent == Contents(items, render)[..Cap(|items|, RepoLimit)]
  {
    NoticesEmpty(items, render);
  }

  /** More than ten items: only the first ten are sent. */
  lemma FormatCapsAtTen(items: seq<RepoRecord>, render: RepoRecord -> Rendered)
    requires |items| > RepoLimit
    requires forall i :: 0 <= i < |items| ==> render(items[i]).failure.None?
    ensures |Format(items, render).sent| == RepoLimit
    ensures Format(items, render).sent == Contents(items[..RepoLimit], render)
  {
    FormatCleanRun(items, render);
    var cs := Contents(items, render)[..RepoLimit];
    var ds := Contents(items[..RepoLimit], render);
    forall i | 0 <= i < RepoLimit
      ensures cs[i] == ds[i]
    {
      ContentsAt(items, render, i);
      ContentsAt(items[..RepoLimit], render, i);
    }
  }

  // ---------------------------------------------------------------------
  // The webhook handler of this variant

  /** `HandleTelegramWebhook` of this variant for a decoded message: the
      calls it makes, in order. `render` is the file template's engine. */
  function HandleWebhook(w: World, render: RepoRecord -> Rendered, chatId: int, text: string)
    : (effects: seq<Effect>)
    ensures |effects| > 0
    ensures effects[0].FindTrending? <==> HasPrefix(text, Params.SearchCommand)
  {
    match Sanitize(text)
    case Err(e) => [Send(chatId, e)]
    case Ok(topic) =>
      [FindTrending(topic)] +
      match w.findTrending(topic)
      case Err(e) => [Send(chatId, e)]
      case Ok(repos) =>
        var out := Format(repos, render);
        Sends(chatId, out.sent) + (match out.err case Some(e) => [Send(chatId, e)] case None => [])
  }

  /** `/search <topic>` looks up trending records for the text after the
      command, leading space included, and sends each of the first ten. */
  lemma SearchTopic(w: World, render: RepoRecord -> Rendered, chatId: int, rest: string, repos: seq<RepoRecord>)
    requires w.findTrending(rest) == Ok(repos)
    ensures HandleWebhook(w, render, chatId, Params.SearchCommand + rest)
         == [FindTrending(rest)] + Sends(chatId, Format(repos, render).sent)
  {
    SanitizeKeepsRest(rest);
    assert Sends(chatId, Format(repos, render).sent) + [] == Sends(chatId, Format(repos, render).sent);
  }

  /** A failed trending lookup is reported to the chat with its own error
      text, and nothing else is sent. */
  lemma SearchLookupFails(w: World, render: RepoRecord -> Rendered, chatId: int, text: string, e: string)
    requires HasPrefix(text, Params.SearchCommand)
    requires w.findTrending(text[|Params.SearchCommand|..]) == Err(e)
    ensures HandleWebhook(w, render, chatId, text)
         == [FindTrending(text[|Params.SearchCommand|..]), Send(chatId, e)]
  {
  }

  /** Any other text gets the usage message and nothing else happens. */
  lemma OtherTextRefused(w: World, render: RepoRecord -> Rendered, chatId: int, text: string)
    requires !HasPrefix(text, Params.SearchCommand)
    ensures HandleWebhook(w, render, chatId, text) == [Send(chatId, UsageMessage)]
  {
  }
}
