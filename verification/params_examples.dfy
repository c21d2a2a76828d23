/** What `ExtractParams` returns on the command shapes users type:
    `/search <name>` followed by `lang:` and `author:` qualifiers in either
    order, each preceded by one space. Stated for all names and values, then
    instantiated on the table of `telegram_test.go`. */
module ParamsExamples {
  import opened Results
  import opened Strings
  import opened Params

  predicate ColonFree(s: string) {
    forall j :: 0 <= j < |s| ==> s[j] != ':'
  }

  lemma NamesArePlain(s: string)
    requires IsName(s) || IsWord(s)
    ensures ColonFree(s) && IsAscii(s) && NoNewline(s)
  {
  }

  /** Both keys end in a colon. */
  lemma KeyColon(s: string, q: Qualifier, k: int)
    requires q == Lang || q == Author
    ensures KeyAt(s, q, k) ==> s[k + |q.key| - 1] == ':'
  {
    if KeyAt(s, q, k) {
      assert s[k..k + |q.key|][|q.key| - 1] == s[k + |q.key| - 1];
    }
  }

  /** Without a colon there is no key occurrence. */
  lemma NoKeyWithoutColon(s: string, q: Qualifier, k: int)
    requires q == Lang || q == Author
    requires ColonFree(s)
    ensures !KeyAt(s, q, k)
  {
    KeyColon(s, q, k);
  }

  /** Where the pieces of `s + " " + key + v` sit. */
  lemma AppendedChars(s: string, key: string, v: string)
    ensures |s + " " + key + v| == |s| + 1 + |key| + |v|
    ensures forall j :: 0 <= j < |s| ==> (s + " " + key + v)[j] == s[j]
    ensures (s + " " + key + v)[|s|] == ' '
    ensures forall j :: 0 <= j < |key| ==> (s + " " + key + v)[|s| + 1 + j] == key[j]
    ensures forall j :: 0 <= j < |v| ==> (s + " " + key + v)[|s| + 1 + |key| + j] == v[j]
  {
  }

  /** The characters of a slice known to equal `w`. */
  lemma SliceChars(t: string, k: int, w: string)
    ensures 0 <= k && k + |w| <= |t| && t[k..k + |w|] == w ==>
              forall i :: 0 <= i < |w| ==> t[k + i] == w[i]
  {
    if 0 <= k && k + |w| <= |t| && t[k..k + |w|] == w {
      forall i | 0 <= i < |w| ensures t[k + i] == w[i] {
        assert t[k..k + |w|][i] == t[k + i];
      }
    }
  }

  /** In `s + " " + key + v` with a colon-free `v`, a key occurrence ends
      either inside `s` or exactly at the appended key's colon. */
  lemma AppendedColon(s: string, key: string, v: string, q: Qualifier, k: int)
    requires q == Lang || q == Author
    requires key == Lang.key || key == Author.key
    requires ColonFree(v)
    requires KeyAt(s + " " + key + v, q, k)
    ensures k + |q.key| <= |s| || k + |q.key| == |s| + 1 + |key|
  {
    var t := s + " " + key + v;
    KeyColon(t, q, k);
    AppendedChars(s, key, v);
    var c := k + |q.key| - 1;
    var below := c < |s|;
    var atSpace := c == |s|;
    var inKey := |s| < c < |s| + |key|;
    var inValue := |s| + |key| < c;
    assert below || atSpace || inKey || c == |s| + |key| || inValue;
    assert !atSpace;
    assert !inKey;
    assert !inValue;
  }

  /** A key occurrence at the appended colon is the appended key itself. */
  lemma AppendedKeyMatches(s: string, key: string, v: string, q: Qualifier, k: int)
    requires q == Lang || q == Author
    requires key == Lang.key || key == Author.key
    requires KeyAt(s + " " + key + v, q, k)
    requires k + |q.key| == |s| + 1 + |key|
    ensures k == |s| + 1 && key == q.key
  {
    var t := s + " " + key + v;
    AppendedChars(s, key, v);
    SliceChars(t, k, q.key);
    assert t[k] == q.key[0] && t[k + 1] == q.key[1];
  }

  /** A key occurrence inside `s` was already one in `s`. */
  lemma AppendedOld(s: string, key: string, v: string, q: Qualifier, k: int)
    requires q == Lang || q == Author
    requires KeyAt(s + " " + key + v, q, k)
    requires k + |q.key| <= |s|
    ensures KeyAt(s, q, k)
  {
    var t := s + " " + key + v;
    AppendedChars(s, key, v);
    assert q.minLen > 0 ==> InClass(t[k + |q.key|], q.cls);
    assert s[k..k + |q.key|] == t[k..k + |q.key|];
  }

  /** Appending keeps every key occurrence of `s`. */
  lemma AppendKeeps(s: string, key: string, v: string, q: Qualifier, k: int)
    requires KeyAt(s, q, k)
    ensures KeyAt(s + " " + key + v, q, k)
  {
    var t := s + " " + key + v;
    assert s[k..k + |q.key|] == t[k..k + |q.key|];
  }

  /** The appended key is an occurrence when a long enough value follows it. */
  lemma AppendAdds(s: string, v: string, q: Qualifier)
    requires q == Lang || q == Author
    requires |s| >= 8
    ensures KeyAt(s + " " + q.key + v, q, |s| + 1) <==> (q.minLen == 0 || (|v| >= q.minLen && InClass(v[0], q.cls)))
    ensures q.minLen <= 1
  {
    var t := s + " " + q.key + v;
    assert t[|s| + 1..|s| + 1 + |q.key|] == q.key;
    assert forall j :: 0 <= j < |v| ==> t[|s| + 1 + |q.key| + j] == v[j];
  }

  /** Appending ` key` and a colon-free value adds exactly one key
      occurrence (of that key, right after the space) and keeps the others. */
  lemma AppendQualifier(s: string, key: string, v: string, q: Qualifier, k: int)
    requires q == Lang || q == Author
    requires key == Lang.key || key == Author.key
    requires ColonFree(v)
    ensures KeyAt(s + " " + key + v, q, k) <==>
              || KeyAt(s, q, k)
              || (&& k == |s| + 1 && key == q.key && |s| >= 8
                  && (q.minLen == 0 || (|v| > 0 && InClass(v[0], q.cls))))
  {
    var t := s + " " + key + v;
    if KeyAt(t, q, k) {
      AppendedColon(s, key, v, q, k);
      if k + |q.key| <= |s| {
        AppendedOld(s, key, v, q, k);
      } else {
        AppendedKeyMatches(s, key, v, q, k);
        AppendAdds(s, v, q);
      }
    }
    if KeyAt(s, q, k) {
      AppendKeeps(s, key, v, q, k);
    }
    if k == |s| + 1 && key == q.key && |s| >= 8 {
      AppendAdds(s, v, q);
    }
  }

  /** `LastKey` finds the last usable key occurrence. */
  lemma LastKeyIs(s: string, q: Qualifier, k: int, x: nat)
    requires x <= k && KeyAt(s, q, x)
    requires forall k' :: x < k' <= k ==> !KeyAt(s, q, k')
    ensures LastKey(s, q, k) == Some(x)
  {
  }

  /** The capture `MatchQualifier` returns once `LastKey` has found the key. */
  lemma MatchQualifierAt(s: string, q: Qualifier, k: nat)
    requires SearchHead(s) && LastKey(s, q, |s|) == Some(k)
    ensures MatchQualifier(s, q) == Some(s[k + |q.key|..RunEnd(s, k + |q.key|, q.cls)])
  {
  }

  /** Class characters are never a colon. */
  lemma ClassColonFree(v: string, cls: CharClass)
    requires forall j :: 0 <= j < |v| ==> InClass(v[j], cls)
    ensures ColonFree(v)
  {
  }

  /** Appending keeps the `/search` head. */
  lemma AppendHead(b: string, key: string, v: string)
    requires SearchHead(b)
    ensures SearchHead(b + " " + key + v)
  {
    var t := b + " " + key + v;
    AppendedChars(b, key, v);
    assert t[..7] == b[..7];
  }

  /** A run of class characters that stops inside `b` or at its end stops
      at the same place after ` key v` is appended. */
  lemma AppendRunEnd(b: string, key: string, v: string, i: nat, cls: CharClass)
    requires i <= |b|
    ensures RunEnd(b + " " + key + v, i, cls) == RunEnd(b, i, cls)
  {
    var t := b + " " + key + v;
    var e := RunEnd(b, i, cls);
    AppendedChars(b, key, v);
    RunEndUnique(t, i, cls, e);
  }

  /** A usable key occurrence in `b` stays the last one after appending the
      other qualifier. */
  lemma AppendOtherLastKey(b: string, key: string, v: string, q: Qualifier)
    requires q == Lang || q == Author
    requires key == Lang.key || key == Author.key
    requires key != q.key && ColonFree(v)
    ensures LastKey(b + " " + key + v, q, |b + " " + key + v|) == LastKey(b, q, |b|)
  {
    var t := b + " " + key + v;
    forall k ensures KeyAt(t, q, k) <==> KeyAt(b, q, k) {
      AppendQualifier(b, key, v, q, k);
    }
    match LastKey(b, q, |b|)
    case None =>
    case Some(x) =>
      LastKeyIs(t, q, |t|, x);
  }

  /** Both captures are the run after the same key occurrence `x`, and the
      appended space ends that run no later than the end of `b`. */
  lemma AppendSameRun(b: string, key: string, v: string, q: Qualifier, x: nat)
    requires SearchHead(b) && SearchHead(b + " " + key + v)
    requires LastKey(b, q, |b|) == Some(x)
    requires LastKey(b + " " + key + v, q, |b + " " + key + v|) == Some(x)
    ensures MatchQualifier(b + " " + key + v, q) == MatchQualifier(b, q)
  {
    var t := b + " " + key + v;
    var i := x + |q.key|;
    MatchQualifierAt(t, q, x);
    MatchQualifierAt(b, q, x);
    AppendRunEnd(b, key, v, i, q.cls);
    var e := RunEnd(b, i, q.cls);
    assert t[i..e] == b[i..e];
  }

  /** Appending the other qualifier leaves a qualifier's capture as it was:
      the appended space ends any run of class characters. */
  lemma AppendOtherQualifier(b: string, key: string, v: string, q: Qualifier)
    requires q == Lang || q == Author
    requires key == Lang.key || key == Author.key
    requires key != q.key && ColonFree(v) && |b| >= 8
    ensures MatchQualifier(b + " " + key + v, q) == MatchQualifier(b, q)
  {
    var t := b + " " + key + v;
    AppendOtherLastKey(b, key, v, q);
    assert SearchHead(t) == SearchHead(b) by {
      AppendedChars(b, key, v);
      assert t[..7] == b[..7];
    }
    if SearchHead(b) && LastKey(b, q, |b|).Some? {
      AppendSameRun(b, key, v, q, LastKey(b, q, |b|).value);
    }
  }

  /** After appending ` key v`, the appended key is the last usable one. */
  lemma AppendSameLastKey(b: string, v: string, q: Qualifier)
    requires q == Lang || q == Author
    requires |b| >= 8
    requires |v| >= q.minLen && forall j :: 0 <= j < |v| ==> InClass(v[j], q.cls)
    ensures LastKey(b + " " + q.key + v, q, |b + " " + q.key + v|) == Some(|b| + 1)
  {
    var t := b + " " + q.key + v;
    var k := |b| + 1;
    ClassColonFree(v, q.cls);
    AppendAdds(b, v, q);
    forall k' | k < k' <= |t| ensures !KeyAt(t, q, k') {
      AppendQualifier(b, q.key, v, q, k');
    }
    LastKeyIs(t, q, |t|, k);
  }

  /** The run of class characters after the appended key covers the value. */
  lemma AppendSameRunEnd(b: string, v: string, q: Qualifier)
    requires forall j :: 0 <= j < |v| ==> InClass(v[j], q.cls)
    ensures RunEnd(b + " " + q.key + v, |b| + 1 + |q.key|, q.cls) == |b + " " + q.key + v|
    ensures (b + " " + q.key + v)[|b| + 1 + |q.key|..|b + " " + q.key + v|] == v
  {
    var t := b + " " + q.key + v;
    var i := |b| + 1 + |q.key|;
    AppendedChars(b, q.key, v);
    forall j | i <= j < |t| ensures InClass(t[j], q.cls) {
      assert t[j] == v[j - i];
    }
    RunEndUnique(t, i, q.cls, |t|);
  }

  /** Appending ` key` and a value of the key's class makes that value the
      qualifier's capture, whatever came before: the last occurrence wins. */
  lemma AppendSameQualifier(b: string, v: string, q: Qualifier)
    requires q == Lang || q == Author
    requires SearchHead(b)
    requires |v| >= q.minLen && forall j :: 0 <= j < |v| ==> InClass(v[j], q.cls)
    ensures MatchQualifier(b + " " + q.key + v, q) == Some(v)
  {
    var t := b + " " + q.key + v;
    AppendHead(b, q.key, v);
    AppendSameLastKey(b, v, q);
    AppendSameRunEnd(b, v, q);
    MatchQualifierAt(t, q, |b| + 1);
  }

  lemma SearchNameRepo(n: string)
    requires IsName(n)
    ensures SearchHead("/search " + n)
    ensures MatchRepo("/search " + n) == Some(n)
  {
    var s := "/search " + n;
    assert s[..7] == SearchCommand;
    assert s[8..] == n;
    assert forall j :: 8 <= j < |s| ==> s[j] == n[j - 8];
    RunEndUnique(s, 8, Name, |s|);
    assert IsNameChar(s[8]);
    assert MatchRepo(s) == Some(s[8..RunEnd(s, 8, Name)]);
    assert s[8..RunEnd(s, 8, Name)] == s[8..|s|] == n;
  }

  /** A bare `/search <name>` carries no qualifier. */
  lemma SearchNameNoQualifier(n: string, q: Qualifier)
    requires IsName(n) && (q == Lang || q == Author)
    ensures MatchQualifier("/search " + n, q) == None
  {
    var s := "/search " + n;
    NamesArePlain(n);
    assert ColonFree(s);
    forall k ensures !KeyAt(s, q, k) {
      NoKeyWithoutColon(s, q, k);
    }
  }

  lemma SearchNamePlain(n: string)
    requires IsName(n)
    ensures IsTrimmed("/search " + n)
    ensures IsAscii("/search " + n) && NoNewline("/search " + n)
  {
    var s := "/search " + n;
    NamesArePlain(n);
    assert s[0] == '/' && s[|s| - 1] == n[|n| - 1];
    PlainConcat("/search ", n);
  }

  /** The repository capture survives appending ` key value`. */
  lemma RepoAfterAppend(s: string, key: string, v: string, n: string)
    requires MatchRepo(s) == Some(n)
    ensures MatchRepo(s + " " + key + v) == Some(n)
  {
    var t := s + " " + key + v;
    MatchRepoSpec(s);
    var e :| RepoPreferred(s, e) && n == s[8..e];
    assert t[..|s|] == s;
    assert t[..7] == s[..7];
    assert t[8..e] == s[8..e];
    assert e == |s| || !IsNameChar(t[e]);
    RunEndUnique(t, 8, Name, e);
  }

  /** A plain, trimmed `/search` command whose repository name is `n` and
      whose qualifier matchers return `lang` and `author`. */
  predicate Parsed(s: string, n: string, lang: Option<string>, author: Option<string>) {
    && IsAscii(s) && NoNewline(s) && IsTrimmed(s)
    && MatchRepo(s) == Some(n)
    && MatchQualifier(s, Lang) == lang && MatchQualifier(s, Author) == author
  }

  /** What `ExtractParams` returns on such a command. */
  lemma ParsedExtract(s: string, n: string, lang: Option<string>, author: Option<string>)
    requires Parsed(s, n, lang, author)
    ensures ExtractParams(s) == Extracted(n, lang.GetOr(""), author.GetOr(""), None)
  {
    TrimSpaceTrimmed(s);
  }

  /** `/search <name>` carries the name and no qualifier. */
  lemma ParsedSearchName(n: string)
    requires IsName(n)
    ensures Parsed("/search " + n, n, None, None)
  {
    var s := "/search " + n;
    assert MatchQualifier(s, Lang) == None by { SearchNameNoQualifier(n, Lang); }
    assert MatchQualifier(s, Author) == None by { SearchNameNoQualifier(n, Author); }
    assert MatchRepo(s) == Some(n) by { SearchNameRepo(n); }
    assert IsAscii(s) && NoNewline(s) && IsTrimmed(s) by { SearchNamePlain(n); }
  }

  /** Appending ` lang:<l>` sets the language and keeps the rest. */
  lemma ParsedAppendLang(s: string, n: string, lang: Option<string>, author: Option<string>, l: string)
    requires Parsed(s, n, lang, author) && IsWord(l)
    ensures Parsed(s + " " + Lang.key + l, n, Some(l), author)
  {
    var t := s + " " + Lang.key + l;
    assert MatchQualifier(t, Lang) == Some(l) by {
      assert SearchHead(s);
      AppendSameQualifier(s, l, Lang);
    }
    assert MatchQualifier(t, Author) == author by {
      NamesArePlain(l);
      AppendOtherQualifier(s, Lang.key, l, Author);
    }
    assert IsAscii(t) && NoNewline(t) && IsTrimmed(t) && MatchRepo(t) == Some(n) by {
      AppendPlain(s, Lang.key, l, n);
    }
  }

  /** Appending ` author:<a>` sets the author and keeps the rest. */
  lemma ParsedAppendAuthor(s: string, n: string, lang: Option<string>, author: Option<string>, a: string)
    requires Parsed(s, n, lang, author) && IsName(a)
    ensures Parsed(s + " " + Author.key + a, n, lang, Some(a))
  {
    var t := s + " " + Author.key + a;
    assert MatchQualifier(t, Author) == Some(a) by {
      assert SearchHead(s);
      AppendSameQualifier(s, a, Author);
    }
    assert MatchQualifier(t, Lang) == lang by {
      NamesArePlain(a);
      AppendOtherQualifier(s, Author.key, a, Lang);
    }
    assert IsAscii(t) && NoNewline(t) && IsTrimmed(t) && MatchRepo(t) == Some(n) by {
      AppendPlain(s, Author.key, a, n);
    }
  }

  /** Appending one qualifier ` key value` to a plain, trimmed command with
      a repository name keeps the name and keeps the command plain. */
  lemma AppendPlain(b: string, key: string, v: string, n: string)
    requires key == Lang.key || key == Author.key
    requires IsName(v) || IsWord(v)
    requires IsAscii(b) && NoNewline(b)
    requires MatchRepo(b) == Some(n)
    ensures MatchRepo(b + " " + key + v) == Some(n)
    ensures IsAscii(b + " " + key + v) && NoNewline(b + " " + key + v)
    ensures IsTrimmed(b + " " + key + v)
  {
    RepoAfterAppend(b, key, v, n);
    AppendKeepsPlain(b, key, v);
    assert b[0] == '/' by { MatchRepoHead(b); }
    AppendKeepsTrimmed(b, key, v);
  }

  lemma MatchRepoHead(b: string)
    requires MatchRepo(b).Some?
    ensures |b| >= 8 && b[0] == '/'
  {
    assert SearchHead(b);
    assert b[..7][0] == SearchCommand[0];
  }

  lemma AppendKeepsPlain(b: string, key: string, v: string)
    requires key == Lang.key || key == Author.key
    requires IsName(v) || IsWord(v)
    requires IsAscii(b) && NoNewline(b)
    ensures IsAscii(b + " " + key + v) && NoNewline(b + " " + key + v)
  {
    NamesArePlain(v);
    PlainConcat(b, " " + key);
    PlainConcat(b + " " + key, v);
    assert b + " " + key + v == b + (" " + key) + v;
  }

  lemma AppendKeepsTrimmed(b: string, key: string, v: string)
    requires key == Lang.key || key == Author.key
    requires IsName(v) || IsWord(v)
    requires |b| > 0 && b[0] == '/'
    ensures IsTrimmed(b + " " + key + v)
  {
    var t := b + " " + key + v;
    assert t[0] == b[0];
    if v == [] {
      assert t[|t| - 1] == key[|key| - 1] == ':';
    } else {
      assert t[|t| - 1] == v[|v| - 1];
    }
  }

  /** A command with only a repository name extracts that name and two
      empty qualifiers, without an error. */
  lemma OnlyRepo(n: string)
    requires IsName(n)
    ensures ExtractParams("/search " + n) == Extracted(n, "", "", None)
  {
    ParsedSearchName(n);
    ParsedExtract("/search " + n, n, None, None);
  }

  /** `/search <name> lang:<l>` extracts `(name, l, "")`. */
  lemma RepoAndLang(n: string, l: string)
    requires IsName(n) && IsWord(l)
    ensures ExtractParams("/search " + n + " lang:" + l) == Extracted(n, l, "", None)
  {
    var b := "/search " + n;
    var s := b + " " + Lang.key + l;
    assert s == "/search " + n + " lang:" + l;
    assert Parsed(s, n, Some(l), None) by {
      ParsedSearchName(n);
      ParsedAppendLang(b, n, None, None, l);
    }
    ParsedExtract(s, n, Some(l), None);
  }

  /** `/search <name> author:<a>` extracts `(name, "", a)`. */
  lemma RepoAndAuthor(n: string, a: string)
    requires IsName(n) && IsName(a)
    ensures ExtractParams("/search " + n + " author:" + a) == Extracted(n, "", a, None)
  {
    var b := "/search " + n;
    var s := b + " " + Author.key + a;
    assert s == "/search " + n + " author:" + a;
    assert Parsed(s, n, None, Some(a)) by {
      ParsedSearchName(n);
      ParsedAppendAuthor(b, n, None, None, a);
    }
    ParsedExtract(s, n, None, Some(a));
  }

  /** `/search <name> lang:<l> author:<a>` extracts `(name, l, a)`. */
  lemma LangThenAuthor(n: string, l: string, a: string)
    requires IsName(n) && IsWord(l) && IsName(a)
    ensures ExtractParams("/search " + n + " lang:" + l + " author:" + a) == Extracted(n, l, a, None)
  {
    var b := "/search " + n;
    var b2 := b + " " + Lang.key + l;
    var s := b2 + " " + Author.key + a;
    assert s == "/search " + n + " lang:" + l + " author:" + a;
    assert Parsed(b2, n, Some(l), None) by {
      ParsedSearchName(n);
      ParsedAppendLang(b, n, None, None, l);
    }
    assert Parsed(s, n, Some(l), Some(a)) by {
      ParsedAppendAuthor(b2, n, Some(l), None, a);
    }
    ParsedExtract(s, n, Some(l), Some(a));
  }

  /** `/search <name> author:<a> lang:<l>` extracts `(name, l, a)`. */
  lemma AuthorThenLang(n: string, a: string, l: string)
    requires IsName(n) && IsName(a) && IsWord(l)
    ensures ExtractParams("/search " + n + " author:" + a + " lang:" + l) == Extracted(n, l, a, None)
  {
    var b := "/search " + n;
    var b2 := b + " " + Author.key + a;
    var s := b2 + " " + Lang.key + l;
    assert s == "/search " + n + " author:" + a + " lang:" + l;
    assert Parsed(b2, n, None, Some(a)) by {
      ParsedSearchName(n);
      ParsedAppendAuthor(b, n, None, None, a);
    }
    assert Parsed(s, n, Some(l), Some(a)) by {
      ParsedAppendLang(b2, n, None, Some(a), l);
    }
    ParsedExtract(s, n, Some(l), Some(a));
  }

  /** A repeated qualifier: the last occurrence wins. */
  lemma LastLangWins(n: string, l1: string, l2: string)
    requires IsName(n) && IsWord(l1) && IsWord(l2)
    ensures ExtractParams("/search " + n + " lang:" + l1 + " lang:" + l2) == Extracted(n, l2, "", None)
  {
    var b := "/search " + n;
    var b2 := b + " " + Lang.key + l1;
    var s := b2 + " " + Lang.key + l2;
    assert s == "/search " + n + " lang:" + l1 + " lang:" + l2;
    assert Parsed(b2, n, Some(l1), None) by {
      ParsedSearchName(n);
      ParsedAppendLang(b, n, None, None, l1);
    }
    assert Parsed(s, n, Some(l2), None) by {
      ParsedAppendLang(b2, n, Some(l1), None, l2);
    }
    ParsedExtract(s, n, Some(l2), None);
  }

  /** The rows of the extraction table in `telegram_test.go`, each command
      written as the concatenation of its pieces. */
  lemma TableOnlyRepo()
    ensures ExtractParams("/search " + "dblab") == Extracted("dblab", "", "", None)
  {
    OnlyRepo("dblab");
  }

  lemma TableLang()
    ensures ExtractParams("/search " + "dblab" + " lang:" + "go") == Extracted("dblab", "go", "", None)
  {
    RepoAndLang("dblab", "go");
  }

  lemma TableAuthor()
    ensures ExtractParams("/search " + "dblab" + " author:" + "danvergara")
         == Extracted("dblab", "", "danvergara", None)
  {
    RepoAndAuthor("dblab", "danvergara");
  }

  lemma TableLangFirst()
    ensures ExtractParams("/search " + "dblab" + " lang:" + "go" + " author:" + "danvergara")
         == Extracted("dblab", "go", "danvergara", None)
  {
    LangThenAuthor("dblab", "go", "danvergara");
  }

  lemma TableAuthorFirst()
    ensures ExtractParams("/search " + "dblab" + " author:" + "danvergara" + " lang:" + "go")
         == Extracted("dblab", "go", "danvergara", None)
  {
    AuthorThenLang("dblab", "danvergara", "go");
  }

  lemma TableDashes()
    ensures ExtractParams("/search " + "go-swagger" + " author:" + "go-swagger" + " lang:" + "go")
         == Extracted("go-swagger", "go", "go-swagger", None)
  {
    AuthorThenLang("go-swagger", "go-swagger", "go");
  }

  /** Surrounding white space is trimmed away; a bare `/search` names no
      repository, and the error carries the trimmed text. */
  lemma BareSearchFails()
    ensures ExtractParams(" /search \t") == Extracted("", "", "", Some(RepoNotFound("/search")))
  {
    var s := " /search \t";
    assert s == [' '] + "/search" + [' ', '\t'];
    TrimSpaceOfPadded([' '], "/search", [' ', '\t']);
    assert !SearchHead("/search");
  }

  /** A qualifier written straight after `/search ` is taken for the
      repository name: the white space before the key must come after the
      one that follows `/search`, and here there is none. */
  lemma QualifierInRepoPosition()
    ensures ExtractParams("/search lang:go") == Extracted("lang", "", "", None)
  {
    var s := "/search lang:go";
    assert IsTrimmed(s);
    TrimSpaceTrimmed(s);
    assert SearchHead(s) && IsNameChar(s[8]);
    RunEndUnique(s, 8, Name, 12);
    assert s[8..12] == "lang";
    assert forall k :: !KeyAt(s, Lang, k) by {
      forall k ensures !KeyAt(s, Lang, k) {
        if 9 <= k <= 10 {
          assert s[k..k + 5][4] == s[k + 4];
        }
      }
    }
    assert LastKey(s, Lang, |s|) == None;
    assert LastKey(s, Author, |s|) == None;
  }
}
