/** The statements of plugins/connector-mysql/src/index.ts, and how the database reads them back. */
module MySqlQuery {
  import opened Wrappers
  import opened Sequences

  /** The names in the statement; the rest of it is fixed. */
  datatype Clauses = Clauses(database: string, table: string, where: Option<string>, orderBy: Option<string>)

  /** `escapeBacktickIdentifier` */
  function EscapeBacktickIdentifier(name: string): string {
    if name == "" then "" else (if name[0] == '`' then "``" else [name[0]]) + EscapeBacktickIdentifier(name[1..])
  }

  function Quoted(name: string): string {
    "`" + (EscapeBacktickIdentifier(name) + "`")
  }

  function WhereText(where: Option<string>): string {
    if where.Some? then " WHERE " + (Quoted(where.value) + " > ?") else ""
  }

  function OrderText(orderBy: Option<string>): string {
    if orderBy.Some? then " ORDER BY " + (Quoted(orderBy.value) + " ASC") else ""
  }

  const SELECT_TEXT := "SELECT * FROM "
  const LIMIT_TEXT := " LIMIT ? OFFSET ?"

  function OptionsText(c: Clauses): (text: string)
    ensures text != "" && text[0] == ' '
  {
    WhereText(c.where) + (OrderText(c.orderBy) + LIMIT_TEXT)
  }

  function Text(c: Clauses): string {
    SELECT_TEXT + (Quoted(c.database) + ("." + (Quoted(c.table) + OptionsText(c))))
  }

  function WhereWords(where: Option<string>): string {
    if where.Some? then " WHERE `" + EscapeBacktickIdentifier(where.value) + "` > ?" else ""
  }

  function OrderWords(orderBy: Option<string>): string {
    if orderBy.Some? then " ORDER BY `" + EscapeBacktickIdentifier(orderBy.value) + "` ASC" else ""
  }

  /** The statement word by word. */
  lemma TextWords(c: Clauses)
    ensures Text(c) == "SELECT * FROM `" + EscapeBacktickIdentifier(c.database) + "`.`"
                       + EscapeBacktickIdentifier(c.table) + "`" + WhereWords(c.where) + OrderWords(c.orderBy)
                       + " LIMIT ? OFFSET ?"
  {
    var db, table := EscapeBacktickIdentifier(c.database), EscapeBacktickIdentifier(c.table);
    assert WhereText(c.where) == WhereWords(c.where) && OrderText(c.orderBy) == OrderWords(c.orderBy);
    TextJoins(c);
    assert "SELECT * FROM " + Quoted(c.database) + "." + Quoted(c.table)
           == "SELECT * FROM `" + db + "`.`" + table + "`";
  }

  /** Every backtick is doubled and nothing else is changed. */
  lemma {:induction false} EscapeDoubles(name: string, c: char)
    ensures EscapeBacktickIdentifier(name + [c]) == EscapeBacktickIdentifier(name) + if c == '`' then "``" else [c]
    decreases |name|
  {
    var last := if c == '`' then "``" else [c];
    if name == "" {
      assert name + [c] == [c] && [c][1..] == "";
      assert last + "" == last && "" + last == last;
    } else {
      EscapeDoubles(name[1..], c);
      assert (name + [c])[1..] == name[1..] + [c];
      Regroup(if name[0] == '`' then "``" else [name[0]], EscapeBacktickIdentifier(name[1..]), last);
    }
  }

  /** The statement as it is put together, one piece behind the other. */
  lemma TextJoins(c: Clauses)
    ensures SELECT_TEXT + Quoted(c.database) + "." + Quoted(c.table) + WhereText(c.where)
                + OrderText(c.orderBy) + LIMIT_TEXT
            == Text(c)
  {
    Join(SELECT_TEXT, Quoted(c.database), ".", Quoted(c.table), WhereText(c.where), OrderText(c.orderBy), LIMIT_TEXT);
  }

  lemma Join(a: string, b: string, c: string, d: string, e: string, f: string, g: string)
    ensures a + b + c + d + e + f + g == a + (b + (c + (d + (e + (f + g)))))
  {
    Regroup(a + b + c + d + e, f, g);
    Regroup(a + b + c + d, e, f + g);
    Regroup(a + b + c, d, e + (f + g));
    Regroup(a + b, c, d + (e + (f + g)));
    Regroup(a, b, c + (d + (e + (f + g))));
  }

  // ---- Reading

  predicate At(text: string, pos: nat, word: string) {
    pos + |word| <= |text| && text[pos..pos + |word|] == word
  }

  /** The rest of an identifier of which `name` has been read, and the position behind its closing backtick. */
  function ReadName(text: string, pos: nat, name: string): (r: Option<(string, nat)>)
    requires pos <= |text|
    ensures r.Some? ==> pos < r.value.1 <= |text|
    decreases |text| - pos
  {
    if pos == |text| then None
    else if text[pos] != '`' then ReadName(text, pos + 1, name + [text[pos]])
    else if pos + 1 < |text| && text[pos + 1] == '`' then ReadName(text, pos + 2, name + ['`'])
    else Some((name, pos + 1))
  }

  /** The name of the identifier at pos and the position behind it. */
  function ReadIdentifier(text: string, pos: nat): (r: Option<(string, nat)>)
    ensures r.Some? ==> pos < r.value.1 <= |text|
  {
    if pos < |text| && text[pos] == '`' then ReadName(text, pos + 1, "") else None
  }

  /** An identifier between two words: the name and the position behind the second word. */
  function ReadBetween(text: string, pos: nat, before: string, after: string): (r: Option<(string, nat)>)
    requires pos <= |text|
    ensures r.Some? ==> pos <= r.value.1 <= |text|
  {
    if !At(text, pos, before) then None
    else
      match ReadIdentifier(text, pos + |before|)
      case None => None
      case Some((name, end)) => if At(text, end, after) then Some((name, end + |after|)) else None
  }

  /** A clause that may be absent. */
  function ReadClause(text: string, pos: nat, before: string, after: string): (r: (Option<string>, nat))
    requires pos <= |text|
    ensures pos <= r.1 <= |text|
  {
    match ReadBetween(text, pos, before, after)
    case None => (None, pos)
    case Some((name, end)) => (Some(name), end)
  }

  /** A word and two identifiers with a dot between them, and the position behind. */
  function ReadTable(text: string, before: string): (r: Option<(string, string, nat)>)
    ensures r.Some? ==> r.value.2 <= |text|
  {
    match ReadBetween(text, 0, before, ".")
    case None => None
    case Some((database, p)) =>
      match ReadIdentifier(text, p)
      case None => None
      case Some((table, q)) => Some((database, table, q))
  }

  /** The optional clauses; None if anything but the limit follows. */
  function ReadOptions(text: string, pos: nat): Option<(Option<string>, Option<string>)>
    requires pos <= |text|
  {
    var where := ReadClause(text, pos, " WHERE ", " > ?");
    var orderBy := ReadClause(text, where.1, " ORDER BY ", " ASC");
    if text[orderBy.1..] == LIMIT_TEXT then Some((where.0, orderBy.0)) else None
  }

  /** The names in a statement of this form; None for any other text. */
  function Read(text: string): Option<Clauses> {
    match ReadTable(text, SELECT_TEXT)
    case None => None
    case Some((database, table, q)) =>
      match ReadOptions(text, q)
      case None => None
      case Some((where, orderBy)) => Some(Clauses(database, table, where, orderBy))
  }

  // ---- Every statement is read back

  lemma {:induction false} NameReads(text: string, pos: nat, name: string, read: string)
    requires Has(text, pos, EscapeBacktickIdentifier(name) + "`")
    requires var end := pos + |EscapeBacktickIdentifier(name)| + 1; end < |text| ==> text[end] != '`'
    ensures ReadName(text, pos, read) == Some((read + name, pos + |EscapeBacktickIdentifier(name)| + 1))
    decreases |name|
  {
    var escaped := EscapeBacktickIdentifier(name);
    HasElement(text, pos, escaped + "`", 0);
    if name == "" {
      assert read + name == read;
    } else {
      var one := if name[0] == '`' then "``" else [name[0]];
      var rest := EscapeBacktickIdentifier(name[1..]);
      assert escaped + "`" == one + (rest + "`");
      HasParts(text, pos, one, rest + "`");
      HasElement(text, pos, one, |one| - 1);
      NameReads(text, pos + |one|, name[1..], read + [name[0]]);
      assert read + [name[0]] + name[1..] == read + name;
    }
  }

  lemma HasIsAt(text: string, pos: nat, word: string)
    requires Has(text, pos, word)
    ensures At(text, pos, word)
  {
    HasSlice(text, pos, word);
  }

  /** Text that is read as this name wherever it stands, unless a backtick follows. */
  ghost predicate ReadsAs(id: string, name: string) {
    && id != "" && id[0] == '`'
    && forall text: string, pos: nat {:trigger Has(text, pos, id)} |
         Has(text, pos, id) && (pos + |id| == |text| || text[pos + |id|] != '`') ::
         ReadName(text, pos + 1, "") == Some((name, pos + |id|))
  }

  lemma QuotedReads(name: string)
    ensures ReadsAs(Quoted(name), name)
  {
    var id, inner := Quoted(name), EscapeBacktickIdentifier(name) + "`";
    forall text: string, pos: nat | Has(text, pos, id) && (pos + |id| == |text| || text[pos + |id|] != '`')
      ensures ReadName(text, pos + 1, "") == Some((name, pos + |id|))
    {
      HasParts(text, pos, "`", inner);
      NameReads(text, pos + 1, name, "");
      assert "" + name == name;
    }
  }

  lemma IdentifierReads(text: string, pos: nat, id: string, name: string, rest: string)
    requires ReadsAs(id, name) && Has(text, pos, id + rest) && pos + |id| + |rest| == |text|
    requires rest == "" || rest[0] != '`'
    ensures Has(text, |text| - |rest|, rest)
    ensures ReadIdentifier(text, pos) == Some((name, |text| - |rest|))
  {
    HasParts(text, pos, id, rest);
    HasElement(text, pos, id, 0);
    if rest != "" {
      HasElement(text, pos + |id|, rest, 0);
    }
  }

  /** An identifier between two words is read, if no backtick follows it. */
  lemma BetweenReads(text: string, pos: nat, before: string, id: string, name: string,
        after: string, rest: string, tail: string)
    requires ReadsAs(id, name) && tail == id + (after + rest)
    requires Has(text, pos, before + tail) && pos + |before| + |tail| == |text|
    requires after != "" && after[0] != '`'
    ensures Has(text, |text| - |rest|, rest)
    ensures ReadBetween(text, pos, before, after) == Some((name, |text| - |rest|))
  {
    HasParts(text, pos, before, tail);
    HasIsAt(text, pos, before);
    IdentifierReads(text, pos + |before|, id, name, after + rest);
    HasParts(text, |text| - |after + rest|, after, rest);
    HasIsAt(text, |text| - |after + rest|, after);
  }

  /** Where another character stands than in the first word, the clause is absent. */
  lemma ClauseIsAbsent(text: string, pos: nat, before: string, after: string, rest: string, i: nat)
    requires Has(text, pos, rest) && i < |rest| && i < |before| && rest[i] != before[i]
    ensures ReadClause(text, pos, before, after) == (None, pos)
  {
    HasElement(text, pos, rest, i);
    NotAt(text, pos, before, i);
  }

  lemma NotAt(text: string, pos: nat, word: string, i: nat)
    requires i < |word| && pos + i < |text| && text[pos + i] != word[i]
    ensures !At(text, pos, word)
  {
    if pos + |word| <= |text| {
      assert text[pos..pos + |word|][i] == text[pos + i];
    }
  }

  /** `tail` is the text behind the first word, `more` that behind the dot, `rest` that behind the table. */
  lemma TableReads(text: string, before: string, id: string, database: string, id': string, table: string,
                   tail: string, more: string, rest: string)
    requires ReadsAs(id, database) && ReadsAs(id', table)
    requires Has(text, 0, before + tail) && |text| == |before| + |tail|
    requires tail == id + ("." + more) && more == id' + rest
    requires rest != "" && rest[0] != '`'
    ensures Has(text, |text| - |rest|, rest)
    ensures ReadTable(text, before) == Some((database, table, |text| - |rest|))
  {
    BetweenReads(text, 0, before, id, database, ".", more, tail);
    IdentifierReads(text, |text| - |more|, id', table, rest);
  }

  lemma OptionsRead(text: string, pos: nat, c: Clauses)
    requires Has(text, pos, OptionsText(c)) && pos + |OptionsText(c)| == |text|
    ensures ReadOptions(text, pos) == Some((c.where, c.orderBy))
  {
    WhereReads(text, pos, c);
    OrderReads(text, pos + |WhereText(c.where)|, c);
    HasSlice(text, |text| - |LIMIT_TEXT|, LIMIT_TEXT);
  }

  /** The position behind the table in a statement, and what is read up to there. */
  lemma TextStarts(c: Clauses) returns (pos: nat)
    ensures Has(Text(c), pos, OptionsText(c)) && pos + |OptionsText(c)| == |Text(c)|
    ensures ReadTable(Text(c), SELECT_TEXT) == Some((c.database, c.table, pos))
  {
    QuotedReads(c.database);
    QuotedReads(c.table);
    var more := Quoted(c.table) + OptionsText(c);
    var tail := Quoted(c.database) + ("." + more);
    TableReads(Text(c), SELECT_TEXT, Quoted(c.database), c.database, Quoted(c.table), c.table, tail,
      more, OptionsText(c));
    pos := |Text(c)| - |OptionsText(c)|;
  }

  lemma PiecesRead(text: string, pos: nat, c: Clauses)
    requires ReadTable(text, SELECT_TEXT) == Some((c.database, c.table, pos))
    requires pos <= |text| && ReadOptions(text, pos) == Some((c.where, c.orderBy))
    ensures Read(text) == Some(c)
  {
  }

  lemma EndReads(text: string, pos: nat, c: Clauses)
    requires Has(text, pos, OptionsText(c)) && pos + |OptionsText(c)| == |text|
    requires ReadTable(text, SELECT_TEXT) == Some((c.database, c.table, pos))
    ensures Read(text) == Some(c)
  {
    OptionsRead(text, pos, c);
    PiecesRead(text, pos, c);
  }

  /** Whatever the names are, backticks included, the database reads exactly the clauses that were written. */
  lemma QueryReads(c: Clauses)
    ensures Read(Text(c)) == Some(c)
  {
    var pos := TextStarts(c);
    EndReads(Text(c), pos, c);
  }

  lemma ClauseJoins(before: string, id: string, after: string, rest: string)
    ensures before + (id + after) + rest == before + (id + (after + rest))
  {
    Regroup(before, id + after, rest);
    Regroup(id, after, rest);
  }

  lemma WhereReads(text: string, pos: nat, c: Clauses)
    requires var where := WhereText(c.where) + (OrderText(c.orderBy) + LIMIT_TEXT);
             Has(text, pos, where) && pos + |where| == |text|
    ensures var order := OrderText(c.orderBy) + LIMIT_TEXT;
            var end := pos + |WhereText(c.where)|;
            && ReadClause(text, pos, " WHERE ", " > ?") == (c.where, end)
            && Has(text, end, order) && end + |order| == |text|
  {
    var order := OrderText(c.orderBy) + LIMIT_TEXT;
    HasParts(text, pos, WhereText(c.where), order);
    if c.where.Some? {
      var name := c.where.value;
      var tail := Quoted(name) + (" > ?" + order);
      ClauseJoins(" WHERE ", Quoted(name), " > ?", order);
      QuotedReads(name);
      BetweenReads(text, pos, " WHERE ", Quoted(name), name, " > ?", order, tail);
    } else {
      ClauseIsAbsent(text, pos, " WHERE ", " > ?", order, 1);
    }
  }

  lemma OrderReads(text: string, pos: nat, c: Clauses)
    requires var order := OrderText(c.orderBy) + LIMIT_TEXT; Has(text, pos, order) && pos + |order| == |text|
    ensures var end := pos + |OrderText(c.orderBy)|;
            && ReadClause(text, pos, " ORDER BY ", " ASC") == (c.orderBy, end)
            && Has(text, end, LIMIT_TEXT) && end + |LIMIT_TEXT| == |text|
  {
    HasParts(text, pos, OrderText(c.orderBy), LIMIT_TEXT);
    if c.orderBy.Some? {
      var name := c.orderBy.value;
      var tail := Quoted(name) + (" ASC" + LIMIT_TEXT);
      ClauseJoins(" ORDER BY ", Quoted(name), " ASC", LIMIT_TEXT);
      QuotedReads(name);
      BetweenReads(text, pos, " ORDER BY ", Quoted(name), name, " ASC", LIMIT_TEXT, tail);
    } else {
      ClauseIsAbsent(text, pos, " ORDER BY ", " ASC", LIMIT_TEXT, 1);
    }
  }
}
