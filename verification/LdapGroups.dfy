/**
  * Splitting distinguished names and reading group names, as `splitOnUnescapedComma` and
  * `extractMemberOfGroups` of plugins/auth-provider-ldap/src/index.ts do.
  */
module LdapGroups {
  import opened Wrappers
  import opened Sequences
  import opened Text
  import opened LdapEscaping

  // ---- Splitting at unescaped commas

  /** The result of the splitter when it is at position i with `current` and `parts` so far. */
  function SplitFrom(dn: string, i: nat, current: string, parts: seq<string>): seq<string>
    requires i <= |dn|
    decreases |dn| - i
  {
    if i == |dn| then parts + [current]
    else if dn[i] == '\\' && i + 1 < |dn| then SplitFrom(dn, i + 2, current + [dn[i], dn[i + 1]], parts)
    else if dn[i] == ',' then SplitFrom(dn, i + 1, "", parts + [current])
    else SplitFrom(dn, i + 1, current + [dn[i]], parts)
  }

  function SplitUnescaped(dn: string): seq<string> {
    SplitFrom(dn, 0, "", [])
  }

  /** The last part grows by some text, or a new empty one begins. */
  lemma {:induction false} JoinGrows(parts: seq<string>, current: string, more: string)
    ensures Join(parts + [current + more], ',') == Join(parts + [current], ',') + more
    ensures Join(parts + [current] + [""], ',') == Join(parts + [current], ',') + ","
    decreases |parts|
  {
    if parts == [] {
      assert parts + [current + more] == [current + more] && parts + [current] == [current];
      assert Join([current] + [""], ',') == current + [','] + Join([""], ',') by {
        assert ([current] + [""])[1..] == [""];
      }
      assert Join([""], ',') == "" && current + [','] + "" == current + ",";
    } else {
      var first, rest := parts[0], parts[1..];
      JoinGrows(rest, current, more);
      assert (parts + [current + more])[1..] == rest + [current + more];
      assert (parts + [current])[1..] == rest + [current];
      assert (parts + [current] + [""])[1..] == rest + [current] + [""];
      Regroup(first + [','], Join(rest + [current], ','), more);
      Regroup(first + [','], Join(rest + [current], ','), ",");
    }
  }

  lemma {:induction false} SplitFromJoins(dn: string, i: nat, current: string, parts: seq<string>)
    requires i <= |dn|
    ensures Join(SplitFrom(dn, i, current, parts), ',') == Join(parts + [current], ',') + dn[i..]
    decreases |dn| - i
  {
    var before := Join(parts + [current], ',');
    if i == |dn| {
      assert before + dn[i..] == before;
    } else if dn[i] == '\\' && i + 1 < |dn| {
      SplitFromJoins(dn, i + 2, current + [dn[i], dn[i + 1]], parts);
      JoinGrows(parts, current, [dn[i], dn[i + 1]]);
      Regroup(before, [dn[i], dn[i + 1]], dn[i + 2..]);
      assert dn[i..] == [dn[i], dn[i + 1]] + dn[i + 2..];
    } else {
      assert dn[i..] == [dn[i]] + dn[i + 1..];
      Regroup(before, [dn[i]], dn[i + 1..]);
      if dn[i] == ',' {
        SplitFromJoins(dn, i + 1, "", parts + [current]);
        JoinGrows(parts, current, "");
      } else {
        SplitFromJoins(dn, i + 1, current + [dn[i]], parts);
        JoinGrows(parts, current, [dn[i]]);
      }
    }
  }

  /** Whatever the text is, the parts with commas between them are the text: no character is lost or changed. */
  lemma SplitKeepsText(dn: string)
    ensures Join(SplitUnescaped(dn), ',') == dn
  {
    SplitFromJoins(dn, 0, "", []);
    assert [] + [""] == [""] && Join([""], ',') == "" && "" + dn[0..] == dn;
  }

  /** `splitOnUnescapedComma` */
  method SplitOnUnescapedComma(dn: string) returns (parts: seq<string>)
    ensures parts == SplitUnescaped(dn)
  {
    parts := [];
    var current := "";
    var i := 0;
    while i < |dn|
      invariant i <= |dn|
      invariant SplitUnescaped(dn) == SplitFrom(dn, i, current, parts)
    {
      var ch := dn[i];
      if ch == '\\' && i + 1 < |dn| {
        current := current + [ch, dn[i + 1]];
        i := i + 1;
      } else if ch == ',' {
        parts := parts + [current];
        current := "";
      } else {
        current := current + [ch];
      }
      i := i + 1;
    }
    parts := parts + [current];
  }

  /** Pieces without a plain comma are carried into the current part whole. */
  lemma {:induction false} SplitPieces(dn: string, i: nat, ps: seq<Piece>, current: string, parts: seq<string>)
    requires Valid(ps) && Plain(',') !in ps
    requires Has(dn, i, PiecesText(ps))
    ensures SplitFrom(dn, i, current, parts) ==
            SplitFrom(dn, i + |PiecesText(ps)|, current + PiecesText(ps), parts)
    decreases |ps|
  {
    if ps == [] {
      assert current + PiecesText(ps) == current;
    } else {
      var p, rest := ps[0], ps[1..];
      HasParts(dn, i, PieceText(p), PiecesText(rest));
      SplitPiece(dn, i, p, current, parts);
      SplitPieces(dn, i + |PieceText(p)|, rest, current + PieceText(p), parts);
      Regroup(current, PieceText(p), PiecesText(rest));
    }
  }

  lemma SplitPiece(dn: string, i: nat, p: Piece, current: string, parts: seq<string>)
    requires ValidPiece(p) && p != Plain(',')
    requires Has(dn, i, PieceText(p))
    ensures SplitFrom(dn, i, current, parts) == SplitFrom(dn, i + |PieceText(p)|, current + PieceText(p), parts)
  {
    PieceChars(dn, i, p);
    if p.HexPair? {
      assert SplitFrom(dn, i, current, parts) == SplitFrom(dn, i + 2, current + ['\\', p.hi], parts);
      assert current + ['\\', p.hi] + [p.lo] == current + ['\\', p.hi, p.lo];
    }
  }

  // ---- Distinguished names as they are written

  datatype Rdn = Rdn(attribute: string, value: string)

  predicate PlainAttribute(attribute: string) {
    ',' !in attribute && '=' !in attribute && '\\' !in attribute
  }

  predicate WrittenDn(rdns: seq<Rdn>) {
    rdns != [] && forall r <- rdns :: PlainAttribute(r.attribute)
  }

  function RdnText(r: Rdn): string {
    r.attribute + "=" + EscapeDnValue(r.value)
  }

  function RdnTexts(rdns: seq<Rdn>): (texts: seq<string>)
    ensures |texts| == |rdns|
  {
    seq(|rdns|, i requires 0 <= i < |rdns| => RdnText(rdns[i]))
  }

  function DnText(rdns: seq<Rdn>): string {
    Join(RdnTexts(rdns), ',')
  }

  function RdnPieces(r: Rdn): (ps: seq<Piece>) {
    MapPieces(r.attribute, c => Plain(c)) + ([Plain('=')] + DnPieces(r.value))
  }

  lemma {:induction false} PlainText(s: string)
    ensures PiecesText(MapPieces(s, c => Plain(c))) == s
  {
    var ps := MapPieces(s, c => Plain(c));
    if s == "" {
    } else {
      PlainText(s[1..]);
      assert ps[1..] == MapPieces(s[1..], c => Plain(c));
    }
  }

  lemma RdnIsPieces(r: Rdn)
    requires PlainAttribute(r.attribute)
    ensures Valid(RdnPieces(r)) && Plain(',') !in RdnPieces(r)
    ensures PiecesText(RdnPieces(r)) == RdnText(r)
  {
    var a := MapPieces(r.attribute, c => Plain(c));
    PlainText(r.attribute);
    EscapedIsPieces(r.value);
    OnePiece(Plain('='));
    PiecesConcat([Plain('=')], DnPieces(r.value));
    PiecesConcat(a, [Plain('=')] + DnPieces(r.value));
    Regroup(r.attribute, "=", EscapeDnValue(r.value));
  }

  /** One RDN, up to the end of the name or to the comma behind it. */
  lemma SplitRdn(dn: string, i: nat, r: Rdn, text: string, parts: seq<string>)
    requires PlainAttribute(r.attribute) && text == RdnText(r)
    requires Has(dn, i, text) && (i + |text| < |dn| ==> dn[i + |text|] == ',')
    ensures SplitFrom(dn, i, "", parts) ==
            if i + |text| == |dn| then parts + [text] else SplitFrom(dn, i + |text| + 1, "", parts + [text])
  {
    RdnIsPieces(r);
    SplitPieces(dn, i, RdnPieces(r), "", parts);
    assert "" + text == text;
  }

  ghost predicate IsRdn(text: string) {
    exists r: Rdn :: PlainAttribute(r.attribute) && text == RdnText(r)
  }

  /** The first of several joined names, and where the others start. */
  lemma SplitFirstRdn(dn: string, i: nat, text: string, more: string, parts: seq<string>)
    requires IsRdn(text) && Has(dn, i, text + [','] + more)
    ensures Has(dn, i + |text| + 1, more)
    ensures SplitFrom(dn, i, "", parts) == SplitFrom(dn, i + |text| + 1, "", parts + [text])
  {
    HasSeparated(dn, i, text, ',', more);
    SplitText(dn, i, text, parts);
  }

  /** One RDN, whichever it is. */
  lemma SplitText(dn: string, i: nat, text: string, parts: seq<string>)
    requires IsRdn(text) && Has(dn, i, text) && (i + |text| < |dn| ==> dn[i + |text|] == ',')
    ensures SplitFrom(dn, i, "", parts) ==
            if i + |text| == |dn| then parts + [text] else SplitFrom(dn, i + |text| + 1, "", parts + [text])
  {
    var r: Rdn :| PlainAttribute(r.attribute) && text == RdnText(r);
    SplitRdn(dn, i, r, text, parts);
  }

  lemma {:induction false} SplitJoined(dn: string, i: nat, texts: seq<string>, parts: seq<string>)
    requires texts != [] && forall t <- texts :: IsRdn(t)
    requires Has(dn, i, Join(texts, ',')) && i + |Join(texts, ',')| == |dn|
    ensures SplitFrom(dn, i, "", parts) == parts + texts
    decreases |texts|
  {
    var text, rest := texts[0], texts[1..];
    if |texts| == 1 {
      assert texts == [text];
      SplitText(dn, i, text, parts);
    } else {
      SplitFirstRdn(dn, i, text, Join(rest, ','), parts);
      SplitJoined(dn, i + |text| + 1, rest, parts + [text]);
      assert texts == [text] + rest;
      AppendOne(parts, text, rest);
    }
  }

  /** Splitting the comma-join of RDNs with escaped values gives the RDNs back, whatever the values are. */
  lemma SplitRoundTrip(rdns: seq<Rdn>)
    requires WrittenDn(rdns)
    ensures SplitUnescaped(DnText(rdns)) == RdnTexts(rdns)
  {
    var dn := DnText(rdns);
    assert dn[0..|dn|] == dn;
    forall t <- RdnTexts(rdns)
      ensures IsRdn(t)
    {
      var k :| 0 <= k < |rdns| && t == RdnText(rdns[k]);
      assert PlainAttribute(rdns[k].attribute);
    }
    SplitJoined(dn, 0, RdnTexts(rdns), []);
  }

  // ---- Group names

  /** The memberOf attribute of a user entry. */
  datatype MemberOf = Absent | One(dn: string) | Many(dns: seq<string>)

  /** `s.indexOf(c)` */
  function IndexOf(s: string, c: char, from: nat): (i: int)
    requires from <= |s|
    ensures i == -1 || from <= i < |s|
    decreases |s| - from
  {
    if from == |s| then -1 else if s[from] == c then from else IndexOf(s, c, from + 1)
  }

  /** The group that one DN names, if any. */
  function GroupOf(utf8: Utf8, dn: string): Option<string> {
    var parts := SplitUnescaped(dn);
    var firstRdn := if parts == [] then "" else parts[0];
    var eq := IndexOf(firstRdn, '=', 0);
    if eq == -1 then None
    else
      var name := Trim(Unescape(utf8, firstRdn[eq + 1..]));
      if name == "" then None else Some(name)
  }

  /** The groups named from the i-th DN on, with the names found before. */
  function GroupsFrom(utf8: Utf8, dns: seq<string>, i: nat, names: seq<string>): seq<string>
    requires i <= |dns|
    decreases |dns| - i
  {
    if i == |dns| then names else GroupsFrom(utf8, dns, i + 1, WithGroup(names, GroupOf(utf8, dns[i])))
  }

  function WithGroup(names: seq<string>, name: Option<string>): seq<string> {
    if name.Some? then names + [name.value] else names
  }

  function Groups(utf8: Utf8, dns: seq<string>): seq<string> {
    GroupsFrom(utf8, dns, 0, [])
  }

  /** `extractMemberOfGroups` */
  method ExtractMemberOfGroups(utf8: Utf8, memberOf: MemberOf) returns (groupNames: seq<string>)
    ensures memberOf.Absent? ==> groupNames == []
    ensures memberOf.One? ==> groupNames == Groups(utf8, [memberOf.dn])
    ensures memberOf.Many? ==> groupNames == Groups(utf8, memberOf.dns)
    ensures forall rdns: seq<Rdn> | DecodesAscii(utf8) && NamesGroup(rdns) && memberOf == One(DnText(rdns)) ::
              groupNames == [rdns[0].value]
    ensures forall dns: seq<seq<Rdn>> | DecodesAscii(utf8) && AllName(dns) && memberOf == Many(DnTexts(dns)) ::
              groupNames == FirstValues(dns)
  {
    if memberOf.Absent? {
      return [];
    }
    var memberDNs := if memberOf.One? then [memberOf.dn] else memberOf.dns;
    groupNames := ListGroups(utf8, memberDNs);
    forall rdns: seq<Rdn> | DecodesAscii(utf8) && NamesGroup(rdns) && memberOf == One(DnText(rdns))
      ensures groupNames == [rdns[0].value]
    {
      GroupsRoundTrip(utf8, [rdns]);
      assert DnTexts([rdns]) == [DnText(rdns)] && FirstValues([rdns]) == [rdns[0].value];
    }
    forall dns: seq<seq<Rdn>> | DecodesAscii(utf8) && AllName(dns) && memberOf == Many(DnTexts(dns))
      ensures groupNames == FirstValues(dns)
    {
      GroupsRoundTrip(utf8, dns);
    }
  }

  /** The loop of `extractMemberOfGroups`. */
  method ListGroups(utf8: Utf8, memberDNs: seq<string>) returns (groupNames: seq<string>)
    ensures groupNames == Groups(utf8, memberDNs)
  {
    groupNames := [];
    for i := 0 to |memberDNs|
      invariant Groups(utf8, memberDNs) == GroupsFrom(utf8, memberDNs, i, groupNames)
    {
      var name := GroupName(utf8, memberDNs[i]);
      if name.Some? {
        groupNames := groupNames + [name.value];
      }
    }
  }

  /** The body of that loop: the group that one DN names. */
  method GroupName(utf8: Utf8, dn: string) returns (name: Option<string>)
    ensures name == GroupOf(utf8, dn)
  {
    var parts := SplitOnUnescapedComma(dn);
    var firstRDN := if |parts| == 0 then "" else parts[0];
    var eqIndex := IndexOf(firstRDN, '=', 0);
    if eqIndex == -1 {
      return None;
    }
    var unescaped := UnescapeRfc4514(utf8, firstRDN[eqIndex + 1..]);
    var trimmed := Trim(unescaped);
    return if trimmed == "" then None else Some(trimmed);
  }

  lemma {:induction false} IndexOfEquals(attribute: string, rest: string, from: nat)
    requires '=' !in attribute && from <= |attribute|
    ensures IndexOf(attribute + "=" + rest, '=', from) == |attribute|
    decreases |attribute| - from
  {
    var s := attribute + "=" + rest;
    if from == |attribute| {
    } else {
      assert s[from] == attribute[from] && attribute[from] in attribute;
      IndexOfEquals(attribute, rest, from + 1);
    }
  }

  /**
    * The group read from a DN whose first RDN was written with `escapeDnValue`: the escaped value,
    * trimmed, or nothing if that is empty. The value of one space comes back as a backslash.
    */
  lemma GroupOfWrittenDn(utf8: Utf8, rdns: seq<Rdn>)
    requires DecodesAscii(utf8)
    requires WrittenDn(rdns)
    ensures var name := rdns[0].value;
            GroupOf(utf8, DnText(rdns)) ==
            if name == " " then Some("\\")
            else if Trim(name) == "" then None else Some(Trim(name))
    ensures GroupOf(utf8, DnText(rdns)) == Some(rdns[0].value) <==>
            rdns[0].value != "" && Trim(rdns[0].value) == rdns[0].value
  {
    SplitRoundTrip(rdns);
    var r := rdns[0];
    assert PlainAttribute(r.attribute);
    var text := RdnText(r);
    IndexOfEquals(r.attribute, EscapeDnValue(r.value), 0);
    assert text[|r.attribute| + 1..] == EscapeDnValue(r.value);
    DnRoundTrip(utf8, r.value);
    TrimSpaces();
    TrimNotLonger(r.value);
  }

  lemma TrimSpaces()
    ensures Trim(" ") == "" && Trim("\\ ") == "\\"
  {
    assert TrimStart(" ") == TrimStart("") == "";
    assert "\\ "[..1] == "\\";
    assert TrimEnd("\\ ") == TrimEnd("\\") == "\\";
  }

  lemma {:induction false} TrimNotLonger(s: string)
    ensures |Trim(s)| <= |s|
  {
    if s != "" && IsSpace(s[0]) {
      TrimNotLonger(s[1..]);
    }
  }

  /** A written name whose first value is not empty and has no white space at either end. */
  predicate NamesGroup(rdns: seq<Rdn>) {
    WrittenDn(rdns) && rdns[0].value != "" && Trim(rdns[0].value) == rdns[0].value
  }

  function DnTexts(dns: seq<seq<Rdn>>): (texts: seq<string>)
    ensures |texts| == |dns|
  {
    seq(|dns|, i requires 0 <= i < |dns| => DnText(dns[i]))
  }

  predicate AllName(dns: seq<seq<Rdn>>) {
    forall rdns <- dns :: NamesGroup(rdns)
  }

  function FirstValues(dns: seq<seq<Rdn>>): (values: seq<string>)
    requires AllName(dns)
    ensures |values| == |dns|
  {
    seq(|dns|, i requires 0 <= i < |dns| => assert NamesGroup(dns[i]); dns[i][0].value)
  }

  lemma {:induction false} GroupsFromRoundTrip(utf8: Utf8, dns: seq<seq<Rdn>>, i: nat, names: seq<string>)
    requires DecodesAscii(utf8)
    requires i <= |dns| && AllName(dns)
    requires names == FirstValues(dns)[..i]
    ensures GroupsFrom(utf8, DnTexts(dns), i, names) == FirstValues(dns)
    decreases |dns| - i
  {
    var values := FirstValues(dns);
    if i == |dns| {
      assert values[..i] == values;
    } else {
      assert NamesGroup(dns[i]);
      GroupOfWrittenDn(utf8, dns[i]);
      assert values[..i + 1] == values[..i] + [values[i]];
      GroupsFromRoundTrip(utf8, dns, i + 1, names + [values[i]]);
    }
  }

  /**
    * The group names of DNs written with `escapeDnValue` come back exactly, in order, when
    * they are non-empty and trimmed.
    */
  lemma GroupsRoundTrip(utf8: Utf8, dns: seq<seq<Rdn>>)
    requires DecodesAscii(utf8) && AllName(dns)
    ensures Groups(utf8, DnTexts(dns)) == FirstValues(dns)
  {
    GroupsFromRoundTrip(utf8, dns, 0, []);
  }

  /** Each DN adds its group at the end, or nothing if it names none. */
  lemma GroupsAppend(utf8: Utf8, dns: seq<string>, dn: string)
    ensures Groups(utf8, dns + [dn]) ==
            Groups(utf8, dns) + (if GroupOf(utf8, dn).Some? then [GroupOf(utf8, dn).value] else [])
  {
    GroupsFromAppend(utf8, dns, dn, 0, []);
  }

  lemma {:induction false} GroupsFromAppend(utf8: Utf8, dns: seq<string>, dn: string, i: nat, names: seq<string>)
    requires i <= |dns|
    ensures GroupsFrom(utf8, dns + [dn], i, names) ==
            GroupsFrom(utf8, dns, i, names) + (if GroupOf(utf8, dn).Some? then [GroupOf(utf8, dn).value] else [])
    decreases |dns| - i
  {
    if i == |dns| {
      assert (dns + [dn])[i] == dn && names + [] == names;
    } else {
      assert (dns + [dn])[i] == dns[i];
      GroupsFromAppend(utf8, dns, dn, i + 1, WithGroup(names, GroupOf(utf8, dns[i])));
    }
  }

  /** A first RDN without an equals sign names no group, whatever follows it. */
  lemma NoEqualsNoGroup(utf8: Utf8, dn: string)
    requires SplitUnescaped(dn) != [] ==> '=' !in SplitUnescaped(dn)[0]
    ensures GroupOf(utf8, dn) == None
  {
    if SplitUnescaped(dn) != [] {
      IndexOfAbsent(SplitUnescaped(dn)[0], '=', 0);
    }
  }

  lemma {:induction false} IndexOfAbsent(s: string, c: char, from: nat)
    requires c !in s && from <= |s|
    ensures IndexOf(s, c, from) == -1
    decreases |s| - from
  {
    if from == |s| {
    } else {
      IndexOfAbsent(s, c, from + 1);
    }
  }
}
