/**
  * The Link header parser of plugins/connector-rest-api/src/index.ts, after section 3 of RFC 8288: the walk that splits
  * a header into entries, the expression that recognises a parameter, and what they do to printed headers.
  */
module LinkHeader {
  import opened Wrappers
  import opened Sequences
  import opened Text

  // ---- Splitting the header into entries

  /**
    * The entries when the walk is at position i, inside `depth` angle brackets, in the entry that
    * began at `start`.
    */
  function EntriesFrom(h: string, i: nat, depth: int, start: nat, entries: seq<string>): seq<string>
    requires start <= i <= |h|
    decreases |h| - i
  {
    if i == |h| then entries + [Trim(h[start..])]
    else if h[i] == '<' then EntriesFrom(h, i + 1, depth + 1, start, entries)
    else if h[i] == '>' then EntriesFrom(h, i + 1, depth - 1, start, entries)
    else if h[i] == ',' && depth == 0 then EntriesFrom(h, i + 1, depth, i + 1, entries + [Trim(h[start..i])])
    else EntriesFrom(h, i + 1, depth, start, entries)
  }

  // ---- One entry

  function Find(s: string, c: char, from: nat): (i: nat)
    requires from <= |s|
    ensures from <= i <= |s|
    ensures i < |s| ==> s[i] == c
    ensures forall k | from <= k < i :: s[k] != c
    decreases |s| - from
  {
    if from == |s| || s[from] == c then from else Find(s, c, from + 1)
  }

  /** `/^<([^>]*)>/`: the length of the match, two more than the URL. */
  function UrlMatch(entry: string): (n: Option<nat>)
    ensures n.Some? ==> 2 <= n.value <= |entry|
  {
    if entry == "" || entry[0] != '<' then None
    else
      var close := Find(entry, '>', 1);
      if close == |entry| then None else Some(close + 1)
  }

  function Lower(c: char): char {
    if 'A' <= c <= 'Z' then (c as int + 32) as char else c
  }

  /** The first characters of s are the word, in any case. */
  predicate StartsWith(s: string, word: string) {
    |word| <= |s| && forall i | 0 <= i < |word| :: Lower(s[i]) == word[i]
  }

  predicate IsQuote(c: char) {
    c == '"' || c == '\''
  }

  function SkipQuote(s: string): string {
    if s != "" && IsQuote(s[0]) then s[1..] else s
  }

  /** `/^rel\s*=\s*["']?next["']?$/i` */
  predicate IsRelNext(s: string) {
    && StartsWith(s, "rel")
    && var afterName := TrimStart(s[3..]);
    && afterName != "" && afterName[0] == '='
    && var value := SkipQuote(TrimStart(afterName[1..]));
    && StartsWith(value, "next")
    && SkipQuote(value[4..]) == ""
  }

  predicate HasRelNext(params: seq<string>) {
    exists p <- params :: IsRelNext(Trim(p))
  }

  /** The URL of an entry that has a rel=next parameter. */
  function NextOf(entry: string): Option<string> {
    match UrlMatch(entry)
    case None => None
    case Some(n) => if HasRelNext(SplitOn(entry[n..], ';')) then Some(entry[1..n - 1]) else None
  }

  function FirstNext(entries: seq<string>): Option<string> {
    if entries == [] then None
    else
      match NextOf(entries[0])
      case Some(url) => Some(url)
      case None => FirstNext(entries[1..])
  }

  function NextLink(h: string): Option<string> {
    FirstNext(EntriesFrom(h, 0, 0, 0, []))
  }

  /** `parseNextLinkHeader` */
  method ParseNextLinkHeader(linkHeader: string) returns (next: Option<string>)
    ensures next == NextLink(linkHeader)
  {
    var entries: seq<string> := [];
    var depth := 0;
    var start := 0;
    for i := 0 to |linkHeader|
      invariant start <= i
      invariant EntriesFrom(linkHeader, 0, 0, 0, []) == EntriesFrom(linkHeader, i, depth, start, entries)
    {
      var ch := linkHeader[i];
      if ch == '<' {
        depth := depth + 1;
      } else if ch == '>' {
        depth := depth - 1;
      } else if ch == ',' && depth == 0 {
        entries := entries + [Trim(linkHeader[start..i])];
        start := i + 1;
      }
    }
    entries := entries + [Trim(linkHeader[start..])];
    for k := 0 to |entries|
      invariant FirstNext(entries) == FirstNext(entries[k..])
    {
      assert entries[k..][1..] == entries[k + 1..];
      var url := NextUrl(entries[k]);
      if url.Some? {
        return url;
      }
    }
    return None;
  }

  predicate RelNextFrom(params: seq<string>, j: nat)
    requires j <= |params|
    decreases |params| - j
  {
    j < |params| && (IsRelNext(Trim(params[j])) || RelNextFrom(params, j + 1))
  }

  lemma {:induction false} RelNextFromStart(params: seq<string>, j: nat)
    requires j <= |params|
    ensures HasRelNext(params[j..]) == RelNextFrom(params, j)
    ensures j == 0 ==> HasRelNext(params) == RelNextFrom(params, j)
    decreases |params| - j
  {
    if j == |params| {
    } else {
      RelNextFromStart(params, j + 1);
      OneMore(params[j], params[j + 1..]);
      assert params[j..] == [params[j]] + params[j + 1..];
    }
    assert params[0..] == params;
  }

  /** The URL of one entry, if it has one and a parameter matches. */
  method NextUrl(entry: string) returns (next: Option<string>)
    ensures next == NextOf(entry)
  {
    var urlMatch := UrlMatch(entry);
    if urlMatch.None? {
      return None;
    }
    var url := entry[1..urlMatch.value - 1];
    var params := SplitOn(entry[urlMatch.value..], ';');
    var found := AnyRelNext(params);
    return if found then Some(url) else None;
  }

  /** The loop over the parameters of one entry. */
  method AnyRelNext(params: seq<string>) returns (found: bool)
    ensures found == HasRelNext(params)
    ensures found <==> exists i | 0 <= i < |params| :: IsRelNext(Trim(params[i]))
  {
    RelNextFromStart(params, 0);
    for j := 0 to |params|
      invariant HasRelNext(params) == RelNextFrom(params, j)
    {
      var trimmed := Trim(params[j]);
      if IsRelNext(trimmed) {
        return true;
      }
    }
    return false;
  }

  // ---- Any header

  /** How many more brackets have been opened than closed in the first i characters. */
  function Balance(h: string, i: nat): int
    requires i <= |h|
  {
    multiset(h[..i])['<'] as int - multiset(h[..i])['>'] as int
  }

  lemma BalanceStep(h: string, i: nat)
    requires i < |h|
    ensures Balance(h, i + 1) == Balance(h, i) + if h[i] == '<' then 1 else if h[i] == '>' then -1 else 0
  {
    assert h[..i + 1] == h[..i] + [h[i]];
  }

  predicate Separates(h: string, i: nat) {
    i < |h| && h[i] == ',' && Balance(h, i) == 0
  }

  /** Cuts in ascending order, from a position on. */
  predicate CutsFrom(h: string, from: nat, cuts: seq<nat>)
    decreases |cuts|
  {
    cuts == [] || (from <= cuts[0] < |h| && CutsFrom(h, cuts[0] + 1, cuts[1..]))
  }

  /** The trimmed stretches between the cuts. */
  function Stretches(h: string, start: nat, cuts: seq<nat>): seq<string>
    requires start <= |h| && CutsFrom(h, start, cuts)
    decreases |cuts|
  {
    if cuts == [] then [Trim(h[start..])]
    else [Trim(h[start..cuts[0]])] + Stretches(h, cuts[0] + 1, cuts[1..])
  }

  lemma {:induction false} LaterCuts(h: string, from: nat, start: nat, cuts: seq<nat>)
    requires start <= from && CutsFrom(h, from, cuts)
    ensures CutsFrom(h, start, cuts)
  {
  }

  /** The cuts from a position on are all the separating commas there. */
  ghost predicate CutsAll(h: string, from: nat, cuts: seq<nat>) {
    CutsFrom(h, from, cuts) && forall c :: c in cuts <==> from <= c && Separates(h, c)
  }

  lemma CutFirst(h: string, i: nat, start: nat, rest: seq<nat>)
    requires start <= i && Separates(h, i) && CutsAll(h, i + 1, rest)
    ensures CutsAll(h, i, [i] + rest) && CutsFrom(h, start, [i] + rest)
    ensures Stretches(h, start, [i] + rest) == [Trim(h[start..i])] + Stretches(h, i + 1, rest)
  {
    var cuts := [i] + rest;
    assert cuts[0] == i && cuts[1..] == rest;
    assert forall c :: c in cuts <==> c == i || c in rest;
  }

  lemma CutLater(h: string, i: nat, cuts: seq<nat>)
    requires i < |h| && !Separates(h, i) && CutsAll(h, i + 1, cuts)
    ensures CutsAll(h, i, cuts)
  {
    LaterCuts(h, i + 1, i, cuts);
  }

  /** One character of the walk. */
  lemma EntriesStep(h: string, i: nat, start: nat, entries: seq<string>)
    requires start <= i < |h|
    ensures EntriesFrom(h, i, Balance(h, i), start, entries) ==
            if Separates(h, i) then EntriesFrom(h, i + 1, Balance(h, i + 1), i + 1, entries + [Trim(h[start..i])])
            else EntriesFrom(h, i + 1, Balance(h, i + 1), start, entries)
  {
    BalanceStep(h, i);
  }

  lemma {:induction false} WalkCuts(h: string, i: nat, depth: int, start: nat, entries: seq<string>)
    returns (cuts: seq<nat>)
    requires start <= i <= |h| && depth == Balance(h, i)
    ensures CutsAll(h, i, cuts) && CutsFrom(h, start, cuts)
    ensures EntriesFrom(h, i, depth, start, entries) == entries + Stretches(h, start, cuts)
    decreases |h| - i
  {
    if i == |h| {
      cuts := [];
    } else {
      EntriesStep(h, i, start, entries);
      if Separates(h, i) {
        var rest := WalkCuts(h, i + 1, Balance(h, i + 1), i + 1, entries + [Trim(h[start..i])]);
        cuts := [i] + rest;
        CutFirst(h, i, start, rest);
        AppendOne(entries, Trim(h[start..i]), Stretches(h, i + 1, rest));
      } else {
        cuts := WalkCuts(h, i + 1, Balance(h, i + 1), start, entries);
        CutLater(h, i, cuts);
      }
    }
  }

  /**
    * Any header is cut exactly at the commas before which as many brackets have been opened as closed,
    * in brackets that do not match too.
    */
  lemma EntriesAreStretches(h: string) returns (cuts: seq<nat>)
    ensures CutsFrom(h, 0, cuts) && forall c: nat :: c in cuts <==> Separates(h, c)
    ensures EntriesFrom(h, 0, 0, 0, []) == Stretches(h, 0, cuts)
  {
    cuts := WalkCuts(h, 0, 0, 0, []);
    assert [] + Stretches(h, 0, cuts) == Stretches(h, 0, cuts);
  }

  predicate BeginsWithUrl(entry: string, url: string, rest: string) {
    entry == "<" + url + ">" + rest && '>' !in url
  }

  /** Any entry has a URL if and only if that is what it begins with and some parameter behind it matches. */
  lemma NextOfExactly(entry: string, url: string)
    ensures NextOf(entry) == Some(url) <==>
            exists rest: string ::
              BeginsWithUrl(entry, url, rest) && exists p <- SplitOn(rest, ';') :: IsRelNext(Trim(p))
  {
    if NextOf(entry) == Some(url) {
      var n := UrlMatch(entry).value;
      assert entry == "<" + entry[1..n - 1] + ">" + entry[n..];
      assert BeginsWithUrl(entry, url, entry[n..]);
    }
    forall rest: string | BeginsWithUrl(entry, url, rest)
      ensures UrlMatch(entry) == Some(|url| + 2) && entry[1..|url| + 1] == url && entry[|url| + 2..] == rest
    {
      EntryIsMatched(entry, url, rest);
    }
  }

  lemma EntryIsMatched(entry: string, url: string, rest: string)
    requires BeginsWithUrl(entry, url, rest)
    ensures UrlMatch(entry) == Some(|url| + 2) && entry[1..|url| + 1] == url && entry[|url| + 2..] == rest
  {
    var close := Find(entry, '>', 1);
    assert entry[|url| + 1] == '>';
    assert forall k | 1 <= k < |url| + 1 :: entry[k] == url[k - 1] && url[k - 1] in url;
    assert close == |url| + 1;
  }

  // ---- What rel=next means

  predicate IsRel(word: string) {
    |word| == 3 && word[0] in "rR" && word[1] in "eE" && word[2] in "lL"
  }

  predicate IsNext(word: string) {
    |word| == 4 && word[0] in "nN" && word[1] in "eE" && word[2] in "xX" && word[3] in "tT"
  }

  /** The words of the expression match their letters in either case. */
  lemma WordsMatch(s: string)
    ensures |s| >= 3 ==> (StartsWith(s, "rel") <==> IsRel(s[..3]))
    ensures |s| >= 4 ==> (StartsWith(s, "next") <==> IsNext(s[..4]))
  {
    if |s| >= 3 {
      assert StartsWith(s, "rel") <==> Lower(s[0]) == 'r' && Lower(s[1]) == 'e' && Lower(s[2]) == 'l' by {
        assert "rel"[0] == 'r' && "rel"[1] == 'e' && "rel"[2] == 'l';
      }
    }
    if |s| >= 4 {
      assert StartsWith(s, "next") <==>
             Lower(s[0]) == 'n' && Lower(s[1]) == 'e' && Lower(s[2]) == 'x' && Lower(s[3]) == 't' by {
        assert "next"[0] == 'n' && "next"[1] == 'e' && "next"[2] == 'x' && "next"[3] == 't';
      }
    }
  }

  /** The word next in any case, with a quote or none on either side; the two need not match. */
  predicate IsNextValue(text: string) {
    var start := if text != "" && text[0] in "\"'" then 1 else 0;
    && start + 4 <= |text| <= start + 5
    && IsNext(text[start..start + 4])
    && (|text| == start + 5 ==> text[start + 4] in "\"'")
  }

  /**
    * A parameter matches exactly when its name is rel in any case and
    * its value is next, with white space around the equals sign.
    */
  lemma RelNextReads(name: string, before: string, after: string, text: string)
    requires forall c <- before + after :: IsSpace(c)
    requires name != "" && forall c <- name :: c != '=' && !IsSpace(c)
    requires text == "" || !IsSpace(text[0])
    ensures IsRelNext(name + before + "=" + after + text) <==>
                IsRel(name) && IsNextValue(text)
  {
    if |name| == 3 {
      WordsMatch(name);
      assert name[..3] == name;
    }
    var tail := after + text;
    assert name + before + "=" + after + text == name + (before + ("=" + tail));
    assert forall c <- before :: c in before + after;
    assert forall c <- after :: c in before + after;
    RelName(name, before, tail);
    SkipSpaces(after, text);
    assert ("=" + tail)[1..] == tail;
    assert TrimStart(text) == text;
    RelValue(text);
  }

  /** Some relation type of a space-separated list is next: what section 3.3 of RFC 8288 makes of the value. */
  predicate NamesNext(value: string) {
    exists word <- SplitOn(value, ' ') :: IsNext(word)
  }

  function QuotedRel(value: string): string {
    "rel" + "" + "=" + "" + ("\"" + (value + "\""))
  }

  /**
    * A quoted value is found to be next as the RFC has it if and only if it is one relation type or
    * next is not among its types: in a list of several types next is not found.
    */
  lemma RelListRead(value: string)
    requires forall c <- value :: !IsQuote(c) && (IsSpace(c) ==> c == ' ')
    ensures IsRelNext(QuotedRel(value)) <==> IsNext(value)
    ensures (IsRelNext(QuotedRel(value)) <==> NamesNext(value)) <==> (' ' !in value || !NamesNext(value))
  {
    var text := "\"" + (value + "\"");
    RelNextReads("rel", "", "", text);
    QuotedNext(value, text);
    if ' ' !in value {
      SplitNone(value, ' ');
    } else {
      var i :| 0 <= i < |value| && value[i] == ' ';
      SpacedIsNotNext(value, i);
    }
  }

  lemma SpacedIsNotNext(value: string, i: nat)
    requires i < |value| && value[i] == ' '
    ensures !IsNext(value)
  {
    if |value| == 4 {
      assert value[i] !in "nN" && value[i] !in "eE" && value[i] !in "xX" && value[i] !in "tT";
    }
  }

  lemma QuotedNext(value: string, text: string)
    requires text == "\"" + (value + "\"") && forall c <- value :: !IsQuote(c)
    ensures IsNextValue(text) <==> IsNext(value)
  {
    assert text[1..] == value + "\"" && text[|value| + 1] == '"';
    if |value| == 4 {
      assert text[1..5] == value;
    } else if |value| == 3 {
      assert text[1..5][3] == '"';
    }
  }

  /** In a list of two relation types, the second of which is next, next is not found. */
  lemma RelPairMissed(first: string, second: string)
    requires forall c <- first + second :: !IsQuote(c) && !IsSpace(c)
    requires IsNext(second)
    ensures var value := first + [' '] + second;
            NamesNext(value) && !IsRelNext(QuotedRel(value))
  {
    var value := first + [' '] + second;
    assert forall c <- first :: c in first + second;
    assert forall c <- second :: c in first + second;
    SplitFirst(first, second, ' ');
    SplitNone(second, ' ');
    assert SplitOn(value, ' ')[1] == second;
    assert value[|first|] == ' ';
    RelListRead(value);
  }

  /** `rel="prev next"` is such a list. */
  lemma RelListMissed()
    ensures NamesNext("prev" + [' '] + "next") && !IsRelNext(QuotedRel("prev" + [' '] + "next"))
  {
    RelPairMissed("prev", "next");
  }

  lemma {:induction false} SkipSpaces(spaces: string, rest: string)
    requires forall c <- spaces :: IsSpace(c)
    ensures TrimStart(spaces + rest) == TrimStart(rest)
  {
    if spaces == "" {
      assert spaces + rest == rest;
    } else {
      SkipSpaces(spaces[1..], rest);
      assert (spaces + rest)[1..] == spaces[1..] + rest;
    }
  }

  /** The part of the expression up to the equals sign. */
  lemma RelName(name: string, before: string, tail: string)
    requires name != "" && forall c <- name :: c != '=' && !IsSpace(c)
    requires forall c <- before :: IsSpace(c)
    ensures var s := name + (before + ("=" + tail));
            && (StartsWith(s, "rel") && TrimStart(s[3..]) != "" && TrimStart(s[3..])[0] == '=' <==>
                |name| == 3 && StartsWith(name, "rel"))
            && (|name| == 3 ==> TrimStart(s[3..]) == "=" + tail)
  {
    var more := before + ("=" + tail);
    SkipSpaces(before, "=" + tail);
    if |name| == 3 {
      assert (name + more)[3..] == more;
    } else if |name| > 3 {
      LongName(name, more);
    } else {
      assert before != "" ==> before[0] in before;
      ShortName(name, more);
    }
  }

  lemma LongName(name: string, more: string)
    requires |name| > 3 && forall c <- name :: c != '=' && !IsSpace(c)
    ensures TrimStart((name + more)[3..]) != "" && TrimStart((name + more)[3..])[0] != '='
  {
    assert (name + more)[3..][0] == name[3] && name[3] in name;
  }

  lemma ShortName(name: string, more: string)
    requires |name| < 3 && more != "" && (more[0] == '=' || IsSpace(more[0]))
    ensures !StartsWith(name + more, "rel")
  {
    assert (name + more)[|name|] == more[0];
    assert Lower(more[0]) != "rel"[|name|];
  }

  lemma RelValue(text: string)
    ensures var v := SkipQuote(text);
            StartsWith(v, "next") && SkipQuote(v[4..]) == "" <==> IsNextValue(text)
  {
    var start := if text != "" && IsQuote(text[0]) then 1 else 0;
    var v := SkipQuote(text);
    assert v == text[start..];
    if 4 <= |v| {
      assert v[..4] == text[start..start + 4];
      WordsMatch(v);
    }
  }

  // ---- Printing

  datatype Link = Link(url: string, params: seq<string>)

  predicate Printable(l: Link) {
    && (forall c <- l.url :: c != '<' && c != '>')
    && (forall p <- l.params :: PlainParam(p))
  }

  predicate PlainParam(p: string) {
    forall c <- p :: c != '<' && c != '>' && c != ',' && c != ';'
  }

  function PrintParams(params: seq<string>): string {
    if params == [] then "" else "; " + params[0] + PrintParams(params[1..])
  }

  function PrintLink(l: Link): string {
    "<" + l.url + ">" + PrintParams(l.params)
  }

  /** An entry as it stands in a header: all but the first have a space in front. */
  function EntryText(l: Link, first: bool): string {
    if first then PrintLink(l) else " " + PrintLink(l)
  }

  function EntryTexts(links: seq<Link>): (texts: seq<string>)
    ensures |texts| == |links|
  {
    seq(|links|, i requires 0 <= i < |links| => EntryText(links[i], i == 0))
  }

  function PrintHeader(links: seq<Link>): string {
    Join(EntryTexts(links), ',')
  }

  /** The URL of the first link with a rel=next parameter in any position. */
  function Wanted(links: seq<Link>): Option<string> {
    if links == [] then None
    else if HasRelNext(links[0].params) then Some(links[0].url)
    else Wanted(links[1..])
  }

  // ---- Trimming and splitting

  lemma {:induction false} TrimStartAppend(s: string, c: char)
    ensures IsSpace(c) ==> TrimStart(s + [c]) == if TrimStart(s) == "" then "" else TrimStart(s) + [c]
  {
    if s == "" {
      assert s + [c] == [c];
      assert [c][1..] == "";
    } else if IsSpace(s[0]) {
      TrimStartAppend(s[1..], c);
      assert (s + [c])[1..] == s[1..] + [c];
    }
  }

  /** White space at the end does not change the trimmed string. */
  lemma TrimAppend(s: string, c: char)
    requires IsSpace(c)
    ensures Trim(s + [c]) == Trim(s)
  {
    TrimStartAppend(s, c);
    var t := TrimStart(s);
    if t != "" {
      assert (t + [c])[..|t|] == t;
    }
  }

  /** parts with c appended to the last one. */
  function AppendToLast(parts: seq<string>, c: char): seq<string>
    requires parts != []
  {
    parts[..|parts| - 1] + [parts[|parts| - 1] + [c]]
  }

  lemma {:induction false} SplitAppend(s: string, c: char, d: char)
    requires c != d
    ensures SplitOn(s + [c], d) == AppendToLast(SplitOn(s, d), c)
  {
    if s == "" {
      assert [c][1..] == "" && s + [c] == [c];
      assert SplitOn([c], d) == [[c]] by {
        assert [c] + "" == [c] && SplitOn("", d)[1..] == [];
      }
      assert "" + [c] == [c];
    } else {
      SplitAppend(s[1..], c, d);
      assert (s + [c])[1..] == s[1..] + [c] && (s + [c])[0] == s[0];
      if s[0] == d {
        PrependPart(SplitOn(s[1..], d), c);
      } else {
        PrependChar(SplitOn(s[1..], d), s[0], c);
      }
    }
  }

  lemma PrependPart(rest: seq<string>, c: char)
    requires rest != []
    ensures AppendToLast([""] + rest, c) == [""] + AppendToLast(rest, c)
  {
    assert ([""] + rest)[..|rest|] == [""] + rest[..|rest| - 1];
  }

  lemma PrependChar(rest: seq<string>, x: char, c: char)
    requires rest != []
    ensures var more := AppendToLast(rest, c);
            AppendToLast([[x] + rest[0]] + rest[1..], c) == [[x] + more[0]] + more[1..]
  {
    if |rest| == 1 {
      Regroup([x], rest[0], [c]);
    }
  }

  /** Trimming the end of an entry does not change which of its parameters match. */
  lemma {:induction false} RelNextTrimEnd(s: string)
    ensures HasRelNext(SplitOn(TrimEnd(s), ';')) == HasRelNext(SplitOn(s, ';'))
  {
    if s != "" && IsSpace(s[|s| - 1]) {
      var n := |s| - 1;
      RelNextTrimEnd(s[..n]);
      assert s == s[..n] + [s[n]];
      SplitAppend(s[..n], s[n], ';');
      var parts := SplitOn(s[..n], ';');
      TrimAppend(parts[|parts| - 1], s[n]);
      LastPart(parts, parts[|parts| - 1] + [s[n]]);
    }
  }

  lemma LastPart(parts: seq<string>, last: string)
    requires parts != [] && Trim(last) == Trim(parts[|parts| - 1])
    ensures HasRelNext(parts[..|parts| - 1] + [last]) == HasRelNext(parts)
  {
    var n := |parts| - 1;
    var parts' := parts[..n] + [last];
    assert forall p :: p in parts <==> p in parts[..n] || p == parts[n];
    assert forall p :: p in parts' <==> p in parts[..n] || p == last;
  }

  /** The printed parameters split back, each with the space in front of it. */
  lemma {:induction false} ParamsSplit(params: seq<string>, first: string)
    requires forall p <- params :: PlainParam(p)
    requires ';' !in first
    ensures HasRelNext(SplitOn(first + PrintParams(params), ';')) == (IsRelNext(Trim(first)) || HasRelNext(params))
    decreases |params|
  {
    if params == [] {
      assert first + PrintParams(params) == first;
      SplitNone(first, ';');
    } else {
      var p := params[0];
      assert PlainParam(p);
      var more := [' '] + p + PrintParams(params[1..]);
      assert first + PrintParams(params) == first + [';'] + more;
      SplitFirst(first, more, ';');
      ParamsSplit(params[1..], [' '] + p);
      TrimSpaced(p);
      OneMore(first, SplitOn(more, ';'));
      OneMoreParam(params);
    }
  }

  lemma TrimSpaced(p: string)
    ensures Trim([' '] + p) == Trim(p)
  {
    assert ([' '] + p)[1..] == p;
  }

  lemma OneMoreParam(params: seq<string>)
    requires params != []
    ensures HasRelNext(params) == (IsRelNext(Trim(params[0])) || HasRelNext(params[1..]))
  {
    OneMore(params[0], params[1..]);
    assert params == [params[0]] + params[1..];
  }

  lemma OneMore(p: string, rest: seq<string>)
    ensures HasRelNext([p] + rest) == (IsRelNext(Trim(p)) || HasRelNext(rest))
  {
    assert forall q :: q in [p] + rest <==> q == p || q in rest;
  }

  /** Trimming stops at a character that is not white space. */
  lemma {:induction false} TrimEndAfter(a: string, b: string)
    requires a != "" && !IsSpace(a[|a| - 1])
    ensures TrimEnd(a + b) == a + TrimEnd(b)
    decreases |b|
  {
    if b == "" {
      assert a + b == a;
    } else if IsSpace(b[|b| - 1]) {
      TrimEndAfter(a, b[..|b| - 1]);
      assert (a + b)[..|a + b| - 1] == a + b[..|b| - 1];
    }
  }

  // ---- Reading a printed entry

  lemma NextOfPrinted(l: Link)
    requires Printable(l)
    ensures NextOf(TrimEnd(PrintLink(l))) == if HasRelNext(l.params) then Some(l.url) else None
  {
    var head := "<" + l.url + ">";
    var rest := PrintParams(l.params);
    TrimEndAfter(head, rest);
    UrlMatches(l.url, TrimEnd(rest));
    PrintedParams(l.params);
    PrintedEntry(l.url, TrimEnd(rest), HasRelNext(l.params));
  }

  lemma PrintedEntry(url: string, rest: string, isNext: bool)
    requires var entry := "<" + url + ">" + rest; UrlMatch(entry) == Some(|url| + 2)
    requires HasRelNext(SplitOn(rest, ';')) == isNext
    ensures NextOf("<" + url + ">" + rest) == if isNext then Some(url) else None
  {
    var entry := "<" + url + ">" + rest;
    assert entry[|url| + 2..] == rest;
    assert entry[1..|url| + 1] == url;
  }

  lemma PrintedParams(params: seq<string>)
    requires forall p <- params :: PlainParam(p)
    ensures HasRelNext(SplitOn(TrimEnd(PrintParams(params)), ';')) == HasRelNext(params)
  {
    RelNextTrimEnd(PrintParams(params));
    ParamsSplit(params, "");
    assert "" + PrintParams(params) == PrintParams(params);
    NothingIsNotNext();
  }

  lemma NothingIsNotNext()
    ensures !IsRelNext(Trim(""))
  {
  }

  lemma UrlMatches(url: string, rest: string)
    requires '>' !in url
    ensures UrlMatch("<" + url + ">" + rest) == Some(|url| + 2)
  {
    var entry := "<" + url + ">" + rest;
    assert entry[|url| + 1] == '>';
    forall k | 1 <= k < |url| + 1
      ensures entry[k] != '>'
    {
      assert entry[k] == url[k - 1] && url[k - 1] in url;
    }
    assert Find(entry, '>', 1) == |url| + 1;
  }

  // ---- Reading a printed header

  /** The comma that ends the entry in which the walk is at position i, or the end of the header. */
  function NextComma(h: string, i: nat, depth: int): (c: nat)
    requires i <= |h|
    ensures i <= c <= |h|
    decreases |h| - i
  {
    if i == |h| then i
    else if h[i] == '<' then NextComma(h, i + 1, depth + 1)
    else if h[i] == '>' then NextComma(h, i + 1, depth - 1)
    else if h[i] == ',' && depth == 0 then i
    else NextComma(h, i + 1, depth)
  }

  /** The walk adds what stands before the next comma, trimmed, and goes on behind it. */
  lemma {:induction false} WalkToComma(h: string, i: nat, depth: int, start: nat, entries: seq<string>)
    requires start <= i <= |h|
    ensures var c := NextComma(h, i, depth);
            EntriesFrom(h, i, depth, start, entries) ==
            if c == |h| then entries + [Trim(h[start..])]
            else EntriesFrom(h, c + 1, 0, c + 1, entries + [Trim(h[start..c])])
    decreases |h| - i
  {
    if i < |h| && !(h[i] == ',' && depth == 0) {
      WalkToComma(h, i + 1, if h[i] == '<' then depth + 1 else if h[i] == '>' then depth - 1 else depth,
        start, entries);
    }
  }

  /** Characters that neither open, close nor separate entries leave the walk where it is. */
  lemma {:induction false} WalkOver(h: string, i: nat, to: nat, depth: int)
    requires i <= to <= |h|
    requires forall k | i <= k < to :: h[k] != '<' && h[k] != '>' && (h[k] != ',' || depth != 0)
    ensures NextComma(h, i, depth) == NextComma(h, to, depth)
    decreases |h| - i
  {
    if i == to {
    } else {
      WalkOver(h, i + 1, to, depth);
    }
  }

  lemma {:induction false} ParamsPlain(params: seq<string>, k: nat)
    requires forall p <- params :: PlainParam(p)
    requires k < |PrintParams(params)|
    ensures var c := PrintParams(params)[k]; c != '<' && c != '>' && c != ','
    decreases |params|
  {
    assert PlainParam(params[0]);
    var n := 2 + |params[0]|;
    if k >= n {
      ParamsPlain(params[1..], k - n);
    } else if k >= 2 {
      assert PrintParams(params)[k] == params[0][k - 2] && params[0][k - 2] in params[0];
    }
  }

  /** Where the parts of a printed entry stand. */
  lemma EntryParts(h: string, i: nat, l: Link)
    requires Has(h, i, PrintLink(l))
    ensures var close := i + 1 + |l.url|;
            && |PrintLink(l)| == |l.url| + 2 + |PrintParams(l.params)|
            && h[i] == '<' && h[close] == '>'
            && Has(h, i + 1, l.url) && Has(h, close + 1, PrintParams(l.params))
  {
    var rest := PrintParams(l.params);
    var close := i + 1 + |l.url|;
    assert PrintLink(l) == "<" + (l.url + (">" + rest));
    HasParts(h, i, "<", l.url + (">" + rest));
    HasElement(h, i, "<", 0);
    HasParts(h, i + 1, l.url, ">" + rest);
    HasParts(h, close, ">", rest);
    HasElement(h, close, ">", 0);
  }

  /** The walk passes over a printed entry and is outside brackets behind it. */
  lemma WalkEntry(h: string, i: nat, l: Link)
    requires Printable(l) && Has(h, i, PrintLink(l))
    ensures NextComma(h, i, 0) == NextComma(h, i + |PrintLink(l)|, 0)
  {
    var close, end := i + 1 + |l.url|, i + |PrintLink(l)|;
    EntryParts(h, i, l);
    forall k | i + 1 <= k < close
      ensures h[k] != '<' && h[k] != '>'
    {
      HasElement(h, i + 1, l.url, k - (i + 1));
      assert l.url[k - (i + 1)] in l.url;
    }
    WalkOver(h, i + 1, close, 1);
    forall k | close + 1 <= k < end
      ensures h[k] != '<' && h[k] != '>' && h[k] != ','
    {
      HasElement(h, close + 1, PrintParams(l.params), k - (close + 1));
      ParamsPlain(l.params, k - (close + 1));
    }
    WalkOver(h, close + 1, end, 0);
  }

  /** Text over which the walk passes, wherever it stands. */
  ghost predicate IsEntry(text: string) {
    forall h: string, i: nat {:trigger Has(h, i, text)} | Has(h, i, text) ::
      NextComma(h, i, 0) == NextComma(h, i + |text|, 0)
  }

  lemma WalkSpaced(h: string, i: nat, l: Link)
    requires Printable(l) && Has(h, i, " " + PrintLink(l))
    ensures NextComma(h, i, 0) == NextComma(h, i + 1 + |PrintLink(l)|, 0)
  {
    HasParts(h, i, " ", PrintLink(l));
    HasElement(h, i, " ", 0);
    WalkOver(h, i, i + 1, 0);
    WalkEntry(h, i + 1, l);
  }

  lemma EntryIsPassed(l: Link, first: bool)
    requires Printable(l)
    ensures IsEntry(EntryText(l, first))
  {
    var text := EntryText(l, first);
    forall h: string, i: nat | Has(h, i, text)
      ensures NextComma(h, i, 0) == NextComma(h, i + |text|, 0)
    {
      if first {
        WalkEntry(h, i, l);
      } else {
        WalkSpaced(h, i, l);
      }
    }
  }

  /** The step over an entry and the comma behind it. */
  lemma FirstEntry(h: string, start: nat, text: string, more: string, entries: seq<string>)
    requires IsEntry(text) && Has(h, start, text + [','] + more)
    ensures var next := start + |text| + 1;
            && Has(h, next, more)
            && EntriesFrom(h, start, 0, start, entries) == EntriesFrom(h, next, 0, next, entries + [Trim(text)])
  {
    HasSeparated(h, start, text, ',', more);
    HasSlice(h, start, text);
    WalkToComma(h, start, 0, start, entries);
  }

  /** The last entry. */
  lemma LastEntry(h: string, start: nat, text: string, entries: seq<string>)
    requires IsEntry(text) && Has(h, start, text) && start + |text| == |h|
    ensures EntriesFrom(h, start, 0, start, entries) == entries + [Trim(text)]
  {
    HasSlice(h, start, text);
    assert h[start..] == h[start..start + |text|];
    WalkToComma(h, start, 0, start, entries);
  }

  function TrimAll(texts: seq<string>): (trimmed: seq<string>)
    ensures |trimmed| == |texts|
  {
    seq(|texts|, i requires 0 <= i < |texts| => Trim(texts[i]))
  }

  lemma {:induction false} HeaderEntries(h: string, start: nat, texts: seq<string>, entries: seq<string>)
    requires texts != [] && forall t <- texts :: IsEntry(t)
    requires Has(h, start, Join(texts, ',')) && start + |Join(texts, ',')| == |h|
    ensures EntriesFrom(h, start, 0, start, entries) == entries + TrimAll(texts)
    decreases |texts|
  {
    var text, rest := texts[0], texts[1..];
    if |texts| == 1 {
      LastEntry(h, start, text, entries);
      assert TrimAll(texts) == [Trim(text)];
    } else {
      FirstEntry(h, start, text, Join(rest, ','), entries);
      HeaderEntries(h, start + |text| + 1, rest, entries + [Trim(text)]);
      assert TrimAll(texts) == [Trim(text)] + TrimAll(rest);
      AppendOne(entries, Trim(text), TrimAll(rest));
    }
  }

  /** The space in front of an entry does not matter. */
  lemma TrimText(l: Link, first: bool)
    ensures Trim(EntryText(l, first)) == TrimEnd(PrintLink(l))
  {
    var printed := PrintLink(l);
    SkipSpaces(" ", printed);
    assert TrimStart(printed) == printed;
  }

  lemma {:induction false} FirstNextFrom(links: seq<Link>, entries: seq<string>, k: nat)
    requires |entries| == |links| && k <= |links|
    requires forall l <- links :: Printable(l)
    requires forall i | 0 <= i < |links| :: entries[i] == TrimEnd(PrintLink(links[i]))
    ensures FirstNext(entries[k..]) == Wanted(links[k..])
    decreases |links| - k
  {
    if k == |links| {
    } else {
      assert Printable(links[k]);
      NextOfPrinted(links[k]);
      FirstNextFrom(links, entries, k + 1);
      assert entries[k..][1..] == entries[k + 1..];
      assert links[k..][1..] == links[k + 1..];
    }
  }

  /**
    * The parser gives the URL of the first link that has a rel=next parameter in any position, or
    * nothing, although URLs may contain commas and semicolons.
    */
  lemma HeaderRoundTrip(links: seq<Link>)
    requires forall l <- links :: Printable(l)
    ensures NextLink(PrintHeader(links)) == Wanted(links)
  {
    if links == [] {
      EmptyHeader();
      assert PrintHeader(links) == "";
    } else {
      var entries := TrimAll(EntryTexts(links));
      HeaderIsEntries(links);
      forall i | 0 <= i < |links|
        ensures entries[i] == TrimEnd(PrintLink(links[i]))
      {
        TrimText(links[i], i == 0);
      }
      FirstNextFrom(links, entries, 0);
      assert entries[0..] == entries && links[0..] == links;
    }
  }

  lemma EmptyHeader()
    ensures NextLink("") == None
  {
    assert EntriesFrom("", 0, 0, 0, []) == [""];
    assert NextOf("") == None;
    assert FirstNext([""]) == FirstNext([""][1..]);
  }

  lemma HeaderIsEntries(links: seq<Link>)
    requires links != [] && forall l <- links :: Printable(l)
    ensures EntriesFrom(PrintHeader(links), 0, 0, 0, []) == TrimAll(EntryTexts(links))
  {
    var h, texts := PrintHeader(links), EntryTexts(links);
    forall t | t in texts
      ensures IsEntry(t)
    {
      var i :| 0 <= i < |links| && t == EntryText(links[i], i == 0);
      assert Printable(links[i]);
      EntryIsPassed(links[i], i == 0);
    }
    assert h[0..|h|] == h;
    HeaderEntries(h, 0, texts, []);
    assert [] + TrimAll(texts) == TrimAll(texts);
  }
}
