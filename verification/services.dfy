/** The collaborators the bot talks to but does not contain: the GitHub
    lookups, the random shuffle and the Telegram `sendMessage` call. Each is
    an oracle field of a `World`, and the handlers record what they asked of
    it as a trace of `Effect`s. */
module Services {
  import opened Results

  /** The fields of a GitHub repository record that the reply template reads. */
  datatype RepoRecord = RepoRecord(
    fullName: string,
    description: string,
    ownerLogin: string,
    stargazersCount: nat,
    htmlUrl: string)

  /** What one call of `sendTextToTelegramChat` reported. */
  datatype SendResult = Delivered | Failed(reason: string)

  /** One observable call a handler makes. */
  datatype Effect =
    | FindRepo(repo: string, lang: string, author: string)
    | FindTrending(topic: string)
    | Send(chatId: int, text: string)

  /** The outside world for one webhook call. `send(n)` is the outcome of the
      `n`-th message the call sends (counting from zero); `shuffle` is the
      order `rand.Shuffle` produced. */
  datatype World = World(
    findRepo: (string, string, string) -> Result<RepoRecord, string>,
    findTrending: string -> Result<seq<RepoRecord>, string>,
    shuffle: seq<RepoRecord> -> seq<RepoRecord>,
    send: nat -> SendResult)

  /** The messages of a list of texts to one chat: one `Send` per text, in order. */
  function Sends(chatId: int, texts: seq<string>): (es: seq<Effect>)
    ensures |es| == |texts| && forall i :: 0 <= i < |texts| ==> es[i] == Send(chatId, texts[i])
  {
    if texts == [] then [] else [Send(chatId, texts[0])] + Sends(chatId, texts[1..])
  }

  /** A shuffle only reorders: it neither drops nor duplicates a record. */
  ghost predicate ShufflesOnly(w: World) {
    forall xs :: multiset(w.shuffle(xs)) == multiset(xs)
  }

  /** How many of `n` items a loop that stops after `limit` of them handles. */
  function Cap(n: nat, limit: nat): (c: nat)
    ensures c <= n && c <= limit
    ensures c == n || c == limit
  {
    if n <= limit then n else limit
  }
}
