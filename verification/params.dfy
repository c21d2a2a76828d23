/** Command parameter extraction from `telegram.go`: the repository name and
    the optional `lang:` and `author:` qualifiers of a `/search` command.

    Each of the three fixed regular expressions gets its own hand-built
    matcher, next to a declarative description of what RE2's leftmost-first
    search reports for it: which splits of the text the pattern accepts, and
    which of them the greedy quantifiers prefer. The matchers are proved to
    return exactly the preferred capture. */
module Params {
  import opened Results
  import opened Strings

  const SearchCommand: string := "/search"
  const LangParam: string := "lang"
  const AuthorParam: string := "author"

  /** The errors `ExtractParams` can report. */
  datatype ParamError = RepoNotFound(text: string) | OptionNotSupported(param: string)

  const RepoNotFoundPrefix: string := "repo not found in "
  const NotSupportedSuffix: string := " option not supported"

  /** The text of the Go error value: the searched text after a fixed
      prefix, or the parameter name before a fixed suffix. */
  function ErrorMessage(e: ParamError): (m: string)
    ensures e.RepoNotFound? ==> HasPrefix(m, RepoNotFoundPrefix) && m[|RepoNotFoundPrefix|..] == e.text
    ensures e.OptionNotSupported? ==>
              |m| >= |NotSupportedSuffix| && m[..|m| - |NotSupportedSuffix|] == e.param
              && m[|m| - |NotSupportedSuffix|..] == NotSupportedSuffix
  {
    match e
    case RepoNotFound(t) => RepoNotFoundPrefix + t
    case OptionNotSupported(p) => p + NotSupportedSuffix
  }

  /** Errors of the same kind are told apart by their messages. */
  lemma ErrorMessageInjective(e1: ParamError, e2: ParamError)
    requires e1.RepoNotFound? == e2.RepoNotFound?
    ensures ErrorMessage(e1) == ErrorMessage(e2) <==> e1 == e2
  {
  }

  /** The two character classes the patterns capture: `\w` and `[A-Za-z0-9\-\_]`. */
  datatype CharClass = Word | Name

  predicate InClass(c: char, cls: CharClass) {
    match cls
    case Word => IsWordChar(c)
    case Name => IsNameChar(c)
  }

  predicate IsName(s: string) {
    |s| > 0 && forall j :: 0 <= j < |s| ==> IsNameChar(s[j])
  }

  predicate IsWord(s: string) {
    forall j :: 0 <= j < |s| ==> IsWordChar(s[j])
  }

  /** Where the longest run of `cls` characters starting at `i` ends. */
  function RunEnd(s: string, i: nat, cls: CharClass): (e: nat)
    requires i <= |s|
    ensures i <= e <= |s|
    ensures forall j :: i <= j < e ==> InClass(s[j], cls)
    ensures e == |s| || !InClass(s[e], cls)
    decreases |s| - i
  {
    if i < |s| && InClass(s[i], cls) then RunEnd(s, i + 1, cls) else i
  }

  /** The maximal run is the only one that stops at a character outside the class. */
  lemma RunEndUnique(s: string, i: nat, cls: CharClass, e: nat)
    requires i <= e <= |s|
    requires forall j :: i <= j < e ==> InClass(s[j], cls)
    requires e == |s| || !InClass(s[e], cls)
    ensures RunEnd(s, i, cls) == e
  {
  }

  /** `^\/search\s`, the head of all three patterns: eight characters. */
  predicate SearchHead(s: string) {
    |s| >= 8 && s[..7] == SearchCommand && IsRegexSpace(s[7])
  }

  // ---------------------------------------------------------------------
  // The repository pattern `^\/search\s(([A-Za-z0-9\-\_]+))\s*.*`

  /** The pattern matches `s` with its capture group spanning `s[8..e]`; the
      trailing `\s*.*` can always match the empty string. */
  ghost predicate RepoAccepts(s: string, e: int) {
    SearchHead(s) && 8 < e <= |s| && forall j :: 8 <= j < e ==> IsNameChar(s[j])
  }

  /** The greedy `+` makes leftmost-first matching report the longest capture. */
  ghost predicate RepoPreferred(s: string, e: int) {
    RepoAccepts(s, e) && forall e' :: RepoAccepts(s, e') ==> e' <= e
  }

  /** `FindStringSubmatch` with the repository pattern: its first group, if any. */
  function MatchRepo(s: string): (r: Option<string>)
    ensures r.Some? ==> IsName(r.value)
  {
    if SearchHead(s) && |s| > 8 && IsNameChar(s[8]) then
      var e := RunEnd(s, 8, Name);
      assert forall j :: 0 <= j < e - 8 ==> s[8..e][j] == s[8 + j];
      Some(s[8..e])
    else
      None
  }

  /** The matcher finds a capture exactly when the pattern matches, and the
      capture it returns is the one leftmost-first matching prefers. */
  lemma MatchRepoSpec(s: string)
    ensures MatchRepo(s).None? <==> forall e :: !RepoAccepts(s, e)
    ensures MatchRepo(s).Some? ==> exists e :: RepoPreferred(s, e) && MatchRepo(s).value == s[8..e]
  {
    if MatchRepo(s).Some? {
      assert RepoPreferred(s, RunEnd(s, 8, Name));
    }
  }

  /** What the repository pattern captures in `s`, stated without the matcher. */
  ghost predicate IsRepoCapture(s: string, v: string) {
    exists e :: RepoPreferred(s, e) && v == s[8..e]
  }

  /** The matcher and the declarative description agree, in both directions. */
  lemma MatchRepoAgrees(s: string, v: string)
    ensures MatchRepo(s) == Some(v) <==> IsRepoCapture(s, v)
  {
    MatchRepoSpec(s);
    if IsRepoCapture(s, v) {
      var e :| RepoPreferred(s, e) && v == s[8..e];
      var e' :| RepoPreferred(s, e') && MatchRepo(s).value == s[8..e'];
      assert e <= e' && e' <= e;
    }
  }

  // ---------------------------------------------------------------------
  // The qualifier patterns `^\/search\s.*\s+lang:([\w]*)` and
  // `^\/search\s.*\s+author:(([A-Za-z0-9\-\_]+))`

  /** `^\/search\s.*\s+` followed by `key`, then a capture of at least
      `minLen` characters of `cls`. */
  datatype Qualifier = Qualifier(key: string, cls: CharClass, minLen: nat)

  const Lang: Qualifier := Qualifier("lang:", Word, 0)
  const Author: Qualifier := Qualifier("author:", Name, 1)

  /** The pattern matches `s` with `.*` spanning `s[8..p]`, `\s+` spanning
      `s[p..k]`, the key at `k` and the capture group spanning
      `s[k + |key|..e]`. The `.` of RE2 does not match a newline. */
  ghost predicate QualAccepts(s: string, q: Qualifier, p: int, k: int, e: int) {
    && SearchHead(s)
    && 8 <= p < k
    && k + |q.key| + q.minLen <= e <= |s|
    && (forall j :: 8 <= j < p ==> s[j] != '\n')
    && (forall j :: p <= j < k ==> IsRegexSpace(s[j]))
    && s[k..k + |q.key|] == q.key
    && (forall j :: k + |q.key| <= j < e ==> InClass(s[j], q.cls))
  }

  /** The order in which leftmost-first matching tries the matches: the
      greedy `.*` longest first, then the greedy `\s+`, then the greedy capture. */
  predicate LexAtMost(p': int, k': int, e': int, p: int, k: int, e: int) {
    p' < p || (p' == p && (k' < k || (k' == k && e' <= e)))
  }

  /** The match RE2 reports: the accepted split tried first. */
  ghost predicate QualPreferred(s: string, q: Qualifier, p: int, k: int, e: int) {
    && QualAccepts(s, q, p, k, e)
    && forall p', k', e' :: QualAccepts(s, q, p', k', e') ==> LexAtMost(p', k', e', p, k, e)
  }

  /** What a qualifier pattern captures in `s`: the preferred group, or the
      empty string when the pattern does not match at all. */
  ghost predicate IsQualifierValue(s: string, q: Qualifier, v: string) {
    || (exists p, k, e :: QualPreferred(s, q, p, k, e) && v == s[k + |q.key|..e])
    || ((forall p, k, e :: !QualAccepts(s, q, p, k, e)) && v == "")
  }

  /** An occurrence of the key that the pattern can use: white space right
      before it, at least one character between `/search ` and that white
      space, and `minLen` class characters after it. */
  predicate KeyAt(s: string, q: Qualifier, k: int) {
    && 9 <= k && k + |q.key| + q.minLen <= |s|
    && IsRegexSpace(s[k - 1])
    && s[k..k + |q.key|] == q.key
    && forall j :: k + |q.key| <= j < k + |q.key| + q.minLen ==> InClass(s[j], q.cls)
  }

  /** Scans down from `k` for the last usable key occurrence. */
  function LastKey(s: string, q: Qualifier, k: int): (r: Option<nat>)
    ensures r.Some? ==> r.value <= k && KeyAt(s, q, r.value)
    ensures r.Some? ==> forall k' :: r.value < k' <= k ==> !KeyAt(s, q, k')
    ensures r.None? ==> forall k' :: k' <= k ==> !KeyAt(s, q, k')
    decreases k
  {
    if k < 9 then None
    else if KeyAt(s, q, k) then Some(k)
    else LastKey(s, q, k - 1)
  }

  /** Every accepted split uses a usable key occurrence. */
  lemma AcceptedKey(s: string, q: Qualifier, p: int, k: int, e: int)
    requires QualAccepts(s, q, p, k, e)
    ensures KeyAt(s, q, k) && p <= k - 1
  {
  }

  /** The split the matcher reports is accepted, and every accepted split
      comes no later than it in leftmost-first order. */
  lemma LastKeyPreferred(s: string, q: Qualifier, k: nat)
    requires SearchHead(s) && NoNewline(s)
    requires LastKey(s, q, |s|) == Some(k)
    ensures QualPreferred(s, q, k - 1, k, RunEnd(s, k + |q.key|, q.cls))
  {
    var e := RunEnd(s, k + |q.key|, q.cls);
    assert QualAccepts(s, q, k - 1, k, e);
    forall p', k', e' | QualAccepts(s, q, p', k', e')
      ensures LexAtMost(p', k', e', k - 1, k, e)
    {
      AcceptedKey(s, q, p', k', e');
    }
  }

  /** `FindStringSubmatch` with a qualifier pattern: its first group, if any. */
  function MatchQualifier(s: string, q: Qualifier): (r: Option<string>)
    ensures r.Some? ==> |r.value| >= q.minLen
    ensures r.Some? ==> forall j :: 0 <= j < |r.value| ==> InClass(r.value[j], q.cls)
  {
    if !SearchHead(s) then None
    else
      match LastKey(s, q, |s|)
      case None => None
      case Some(k) =>
        var b := k + |q.key|;
        var v := s[b..RunEnd(s, b, q.cls)];
        assert forall j :: 0 <= j < |v| ==> v[j] == s[b + j];
        Some(v)
  }

  /** The matcher finds a capture exactly when the pattern matches, and the
      capture it returns is the one leftmost-first matching prefers. */
  lemma MatchQualifierSpec(s: string, q: Qualifier)
    requires NoNewline(s)
    ensures MatchQualifier(s, q).None? <==> forall p, k, e :: !QualAccepts(s, q, p, k, e)
    ensures MatchQualifier(s, q).Some? ==>
              exists p, k, e :: QualPreferred(s, q, p, k, e) && MatchQualifier(s, q).value == s[k + |q.key|..e]
  {
    if SearchHead(s) {
      match LastKey(s, q, |s|)
      case None =>
        assert forall p, k, e :: QualAccepts(s, q, p, k, e) ==> KeyAt(s, q, k);
      case Some(k) =>
        LastKeyPreferred(s, q, k);
    }
  }

  /** Leftmost-first matching reports one split only. */
  lemma QualPreferredUnique(s: string, q: Qualifier, p: int, k: int, e: int, p': int, k': int, e': int)
    requires QualPreferred(s, q, p, k, e) && QualPreferred(s, q, p', k', e')
    ensures p == p' && k == k' && e == e'
  {
    assert LexAtMost(p', k', e', p, k, e);
    assert LexAtMost(p, k, e, p', k', e');
  }

  /** What the matcher returns is what the pattern captures. */
  lemma MatchQualifierSound(s: string, q: Qualifier)
    requires NoNewline(s)
    ensures IsQualifierValue(s, q, MatchQualifier(s, q).GetOr(""))
  {
    MatchQualifierSpec(s, q);
  }

  lemma MatchQualifierFound(s: string, q: Qualifier, p': int, k': int, e': int)
    requires NoNewline(s)
    requires QualPreferred(s, q, p', k', e')
    ensures MatchQualifier(s, q) == Some(s[k' + |q.key|..e'])
  {
    var r := MatchQualifier(s, q);
    MatchQualifierSpec(s, q);
    assert r.Some?;
    var p, k, e :| QualPreferred(s, q, p, k, e) && r.value == s[k + |q.key|..e];
    QualPreferredUnique(s, q, p, k, e, p', k', e');
  }

  /** Anything the pattern captures is what the matcher returns. */
  lemma MatchQualifierComplete(s: string, q: Qualifier, v: string)
    requires NoNewline(s)
    requires IsQualifierValue(s, q, v)
    ensures MatchQualifier(s, q).GetOr("") == v
  {
    MatchQualifierSpec(s, q);
    if exists p, k, e :: QualPreferred(s, q, p, k, e) && v == s[k + |q.key|..e] {
      var p, k, e :| QualPreferred(s, q, p, k, e) && v == s[k + |q.key|..e];
      MatchQualifierFound(s, q, p, k, e);
    }
  }

  /** The matcher and the declarative description agree, in both directions. */
  lemma MatchQualifierAgrees(s: string, q: Qualifier, v: string)
    requires NoNewline(s)
    ensures MatchQualifier(s, q).GetOr("") == v <==> IsQualifierValue(s, q, v)
  {
    MatchQualifierSound(s, q);
    if IsQualifierValue(s, q, v) {
      MatchQualifierComplete(s, q, v);
    }
  }

  /** A captured qualifier value has the pattern's minimum length and only
      characters of its class. */
  lemma QualifierValueShape(s: string, q: Qualifier, v: string)
    requires IsQualifierValue(s, q, v)
    ensures v == "" || |v| >= q.minLen
    ensures forall j :: 0 <= j < |v| ==> InClass(v[j], q.cls)
  {
    if v != "" {
      var p, k, e :| QualPreferred(s, q, p, k, e) && v == s[k + |q.key|..e];
      assert forall j :: 0 <= j < |v| ==> v[j] == s[k + |q.key| + j];
    }
  }

  // ---------------------------------------------------------------------
  // The extraction functions

  /** `extractRepo`: the mandatory repository name. */
  function ExtractRepo(s: string): (r: Result<string, ParamError>)
    ensures r.Ok? ==> IsName(r.value)
    ensures r.Err? ==> r.error == RepoNotFound(s)
  {
    match MatchRepo(s)
    case Some(v) => Ok(v)
    case None => Err(RepoNotFound(s))
  }

  /** `extractOptionalParam`: the value of the `lang` or `author` qualifier,
      empty when it is absent; any other parameter name is an error. */
  function ExtractOptionalParam(s: string, param: string): (r: Result<string, ParamError>)
    ensures param == LangParam ==> r.Ok? && IsWord(r.value)
    ensures param == AuthorParam ==> r.Ok? && (r.value == "" || IsName(r.value))
    ensures param != LangParam && param != AuthorParam ==> r == Err(OptionNotSupported(param))
  {
    if param == LangParam then
      Ok(MatchQualifier(s, Lang).GetOr(""))
    else if param == AuthorParam then
      Ok(MatchQualifier(s, Author).GetOr(""))
    else
      Err(OptionNotSupported(param))
  }

  /** The four results of `ExtractParams`: three strings and an error. */
  datatype Extracted = Extracted(repo: string, lang: string, author: string, err: Option<ParamError>)

  /** `ExtractParams`: trims the command, then extracts the repository name
      and the two qualifiers from the trimmed text. On failure all three
      strings are empty. */
  function ExtractParams(s: string): (r: Extracted)
    requires IsAscii(s) && NoNewline(s)
    ensures r.err.Some? ==> r == Extracted("", "", "", Some(RepoNotFound(TrimSpace(s))))
    ensures r.err.None? ==> IsName(r.repo)
    ensures IsWord(r.lang)
    ensures r.author == "" || IsName(r.author)
  {
    var t := TrimSpace(s);
    match ExtractRepo(t)
    case Err(e) => Extracted("", "", "", Some(e))
    case Ok(repo) =>
      match ExtractOptionalParam(t, LangParam)
      case Err(e) => Extracted("", "", "", Some(e))
      case Ok(lang) =>
        match ExtractOptionalParam(t, AuthorParam)
        case Err(e) => Extracted("", "", "", Some(e))
        case Ok(author) => Extracted(repo, lang, author, None)
  }

  lemma TrimSpaceKeepsText(s: string)
    ensures IsAscii(s) ==> IsAscii(TrimSpace(s))
    ensures NoNewline(s) ==> NoNewline(TrimSpace(s))
  {
    var r := TrimSpace(s);
    TrimSpaceInfix(s);
    var i := |s| - |TrimLeft(s)|;
    assert forall j :: 0 <= j < |r| ==> r[j] == s[i + j];
  }

  /** `ExtractParams` succeeds exactly when the repository pattern matches the
      trimmed command, and then returns what the three patterns capture. */
  lemma ExtractParamsSpec(s: string)
    requires IsAscii(s) && NoNewline(s)
    ensures ExtractParams(s).err.None? <==> exists e :: RepoAccepts(TrimSpace(s), e)
    ensures ExtractParams(s).err.None? ==>
              && IsRepoCapture(TrimSpace(s), ExtractParams(s).repo)
              && IsQualifierValue(TrimSpace(s), Lang, ExtractParams(s).lang)
              && IsQualifierValue(TrimSpace(s), Author, ExtractParams(s).author)
  {
    var t := TrimSpace(s);
    TrimSpaceKeepsText(s);
    MatchRepoSpec(t);
    if MatchRepo(t).Some? {
      MatchRepoAgrees(t, MatchRepo(t).value);
      MatchQualifierSound(t, Lang);
      MatchQualifierSound(t, Author);
    }
  }

  /** The declarative description determines the result: a successful
      extraction is `(n, l, a)` exactly when those are the three captures. */
  lemma ExtractParamsCharacterized(s: string, n: string, l: string, a: string)
    requires IsAscii(s) && NoNewline(s)
    ensures ExtractParams(s) == Extracted(n, l, a, None) <==>
              && IsRepoCapture(TrimSpace(s), n)
              && IsQualifierValue(TrimSpace(s), Lang, l)
              && IsQualifierValue(TrimSpace(s), Author, a)
  {
    var t := TrimSpace(s);
    TrimSpaceKeepsText(s);
    ExtractParamsSpec(s);
    MatchRepoAgrees(t, n);
    MatchQualifierAgrees(t, Lang, l);
    MatchQualifierAgrees(t, Author, a);
  }
}
