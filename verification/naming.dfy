/** How server.py names things: the table that holds a club's recruitment form
    or an event's application form, the column made from a field label, the label read back from a column, and the
    club name recovered from a recruitment table's name. */
module Naming {
  import opened Text

  /** The two kinds of dynamic form table. */
  datatype Kind = Recruitments | Applications

  function Suffix(k: Kind): string {
    match k
    case Recruitments => "_recruitments"
    case Applications => "_applications"
  }

  /** `name.lower().replace(' ', '_')`, used for table and column names alike. */
  function Slug(name: string): (slug: string)
    ensures |slug| == |name|
  {
    Replace(Lower(name), ' ', '_')
  }

  /** `f"{owner.lower().replace(' ', '_')}_recruitments"` (or `_applications`). */
  function TableName(owner: string, k: Kind): (name: string)
    ensures |name| == |owner| + |Suffix(k)| && EndsWith(name, Suffix(k))
  {
    Slug(owner) + Suffix(k)
  }

  /** `' '.join(word.capitalize() for word in column.split('_'))`: the label a
      form field gets when it is read back from its column. */
  function ColumnLabel(column: string): string {
    Join(CapitalizeAll(Split(column, '_')), ' ')
  }

  /** `' '.join(table.split('_')[:-1]).title()`: the club name guessed from a
      recruitment table's name. */
  function ClubNameOfTable(table: string): string {
    var parts := Split(table, '_');
    Title(Join(parts[..|parts| - 1], ' '))
  }

  // ---------------------------------------------------------------------------
  // Table names pasted into SQL

  /** A character SQLite's tokenizer keeps inside a bare identifier: an ASCII
      letter or digit, `_`, `$`, or any character outside ASCII. */
  predicate IdentifierChar(c: char) {
    IsCased(c) || '0' <= c <= '9' || c == '_' || c == '$' || c >= '\U{80}'
  }

  /** A character that can begin a bare identifier (a digit begins a number,
      `$` a parameter). */
  predicate IdentifierStart(c: char) {
    IsCased(c) || c == '_' || c >= '\U{80}'
  }

  /** `s`, pasted unquoted into a statement, is read by SQLite as one bare
      identifier. A form table name ends in its suffix, so it is never a
      keyword. */
  predicate IsBareIdentifier(s: string) {
    s != [] && IdentifierStart(s[0]) && forall i | 0 <= i < |s| :: IdentifierChar(s[i])
  }

  /** SQLite refuses to create a table whose name begins with `sqlite_`, in
      any case. */
  predicate IsReservedName(s: string) {
    |s| >= 7 && Lower(s[..7]) == "sqlite_"
  }

  // ---------------------------------------------------------------------------
  // Lemmas

  /** A slug has the length of the name, no spaces and no upper-case letters,
      and holds `_` exactly where the name holds a space or `_`. */
  lemma SlugShape(name: string)
    ensures |Slug(name)| == |name|
    ensures ' ' !in Slug(name) && NoUpper(Slug(name))
    ensures forall i :: 0 <= i < |name| ==> (Slug(name)[i] == '_' <==> name[i] == ' ' || name[i] == '_')
  {
  }

  lemma SlugAppend(a: string, b: string)
    ensures Slug(a + b) == Slug(a) + Slug(b)
  {
  }

  /** A table name is the owner's slug followed by the kind's suffix; in
      particular it ends with that suffix and nothing in front of the suffix is
      a space or an upper-case letter. */
  lemma TableNameShape(owner: string, k: Kind)
    ensures EndsWith(TableName(owner, k), Suffix(k))
    ensures |TableName(owner, k)| == |owner| + |Suffix(k)|
    ensures TableName(owner, k)[..|owner|] == Slug(owner)
    ensures ' ' !in TableName(owner, k)[..|owner|] && NoUpper(TableName(owner, k)[..|owner|])
  {
    SlugShape(owner);
    assert TableName(owner, k)[..|owner|] == Slug(owner);
  }

  /** No name ends with both suffixes. */
  lemma SuffixesExclusive(s: string)
    ensures EndsWith(s, Suffix(Recruitments)) ==> !EndsWith(s, Suffix(Applications))
  {
    if EndsWith(s, Suffix(Recruitments)) {
      assert s[|s| - 12] == Suffix(Recruitments)[1] == 'r';
      assert Suffix(Applications)[1] == 'a';
    }
  }

  /** A table name ends with the suffix of its own kind and not with the other
      one, so recruitment and application tables never share a name. */
  lemma TableKindDetermined(owner: string, k: Kind, k': Kind)
    ensures EndsWith(TableName(owner, k), Suffix(k')) <==> k == k'
  {
    TableNameShape(owner, k);
    SuffixesExclusive(TableName(owner, k));
    if k == Applications && k' == Recruitments {
      SuffixesExclusive(TableName(owner, k));
    }
  }

  /** Recruiting-club discovery inverts the table-name derivation for a club
      name without underscores that is already in title case. */
  lemma ClubNameRoundTrip(name: string)
    requires '_' !in name
    requires Title(name) == name
    ensures ClubNameOfTable(TableName(name, Recruitments)) == name
  {
    var parts := Split(TableName(name, Recruitments), '_');
    RecruitmentTableParts(Slug(name));
    JoinSplit(Slug(name), '_', ' ');
    UnderscoresBackToSpaces(name);
    assert Join(parts[..|parts| - 1], ' ') == Lower(name);
    TitleOfLower(name, false);
  }

  /** Splitting a recruitment table name at `_` and dropping the last piece
      leaves the pieces of the slug. */
  lemma RecruitmentTableParts(slug: string)
    ensures var parts := Split(slug + Suffix(Recruitments), '_');
            parts[..|parts| - 1] == Split(slug, '_')
  {
    var word := Suffix(Recruitments)[1..];
    assert Suffix(Recruitments) == ['_'] + word;
    assert '_' !in word by {
      forall i | 0 <= i < |word| ensures word[i] != '_' {
        assert IsLower(word[i]);
      }
    }
    assert slug + Suffix(Recruitments) == slug + ['_'] + word;
    DropLastPiece(slug, word, '_');
  }

  lemma DropLastPiece(a: string, w: string, d: char)
    requires d !in w
    ensures var parts := Split(a + [d] + w, d);
            parts[..|parts| - 1] == Split(a, d)
  {
    SplitAround(a, w, d);
    SplitWithoutSeparator(w, d);
  }

  /** For a name without underscores, turning the slug's underscores back into
      spaces gives the lower-cased name. */
  lemma UnderscoresBackToSpaces(name: string)
    requires '_' !in name
    ensures Replace(Slug(name), '_', ' ') == Lower(name)
  {
    forall i | 0 <= i < |name|
      ensures Replace(Slug(name), '_', ' ')[i] == Lower(name)[i]
    {
      assert name[i] != '_';
    }
  }

  /** Capitalising a word of lower-case non-space characters and slugging it
      again gives the word back. */
  lemma SlugCapitalize(w: string)
    requires NoUpper(w) && ' ' !in w
    ensures Slug(Capitalize(w)) == w
  {
    if w != [] {
      assert Slug(Capitalize(w))[0] == w[0];
      forall j | 1 <= j < |w|
        ensures Slug(Capitalize(w))[j] == w[j]
      {
        assert Capitalize(w)[j] == LowerChar(w[j]);
      }
    }
  }

  lemma {:induction false} SlugJoinCapitalized(ws: seq<string>)
    requires forall k, j :: 0 <= k < |ws| && 0 <= j < |ws[k]| ==> !IsUpper(ws[k][j]) && ws[k][j] != ' '
    ensures Slug(Join(CapitalizeAll(ws), ' ')) == Join(ws, '_')
  {
    if ws != [] {
      SlugCapitalize(ws[0]);
      if |ws| > 1 {
        var caps := CapitalizeAll(ws);
        assert caps[1..] == CapitalizeAll(ws[1..]);
        SlugJoinCapitalized(ws[1..]);
        SlugAppend(caps[0] + [' '], Join(caps[1..], ' '));
        SlugAppend(caps[0], [' ']);
      }
    }
  }

  /** Slugging the label read back from a column gives the column again, for
      every column name a slug can produce (no spaces, no upper case). */
  lemma ColumnLabelRoundTrip(column: string)
    requires ' ' !in column && NoUpper(column)
    ensures Slug(ColumnLabel(column)) == column
  {
    SplitPieces(column, '_');
    SlugJoinCapitalized(Split(column, '_'));
    JoinSplit(column, '_', '_');
    assert Replace(column, '_', '_') == column;
  }

  /** A field re-created from the label the server reads back lands in the very
      column it was read from. */
  lemma ReadBackLabelKeepsColumn(fieldLabel: string)
    ensures Slug(ColumnLabel(Slug(fieldLabel))) == Slug(fieldLabel)
  {
    SlugShape(fieldLabel);
    ColumnLabelRoundTrip(Slug(fieldLabel));
  }

  /** A table name, suffix included, has no spaces and no upper-case letters. */
  lemma TableNameIsSlug(owner: string, k: Kind)
    ensures ' ' !in TableName(owner, k) && NoUpper(TableName(owner, k))
  {
    SlugShape(owner);
    var suffix := Suffix(k);
    forall i | 0 <= i < |suffix|
      ensures suffix[i] == '_' || IsLower(suffix[i])
    {
    }
    assert TableName(owner, k) == Slug(owner) + suffix;
  }

  /** Lower-casing a title-cased string gives the lower-cased original. */
  lemma {:induction false} LowerTitle(s: string, prevCased: bool)
    ensures Lower(TitleFrom(s, prevCased)) == Lower(s)
  {
    if s != [] {
      LowerTitle(s[1..], IsCased(s[0]));
      var head := if prevCased then LowerChar(s[0]) else UpperChar(s[0]);
      assert TitleFrom(s, prevCased) == [head] + TitleFrom(s[1..], IsCased(s[0]));
      LowerAppend([head], TitleFrom(s[1..], IsCased(s[0])));
      LowerAppend([s[0]], s[1..]);
      assert [s[0]] + s[1..] == s;
    }
  }

  /** Recruiting-club discovery and the table-name derivation agree on every
      recruitment table the server can have created: deriving the table name
      of the club name read from a table gives that table back. */
  lemma TableNameOfClubName(t: string)
    requires EndsWith(t, Suffix(Recruitments))
    requires ' ' !in t && NoUpper(t)
    ensures TableName(ClubNameOfTable(t), Recruitments) == t
  {
    var p := t[..|t| - |Suffix(Recruitments)|];
    assert t == p + Suffix(Recruitments);
    RecruitmentTableParts(p);
    JoinSplit(p, '_', ' ');
    var x := Replace(p, '_', ' ');
    assert ClubNameOfTable(t) == Title(x);
    LowerTitle(x, false);
    forall i | 0 <= i < |p|
      ensures Replace(Lower(x), ' ', '_')[i] == p[i]
    {
      assert p[i] == t[i];
    }
    assert Slug(Title(x)) == p;
  }

  /** A form table name is a bare identifier exactly when every character of
      the owner's name is a space or an identifier character, and its first
      character, if any, is a space or can begin an identifier. */
  lemma BareTableName(owner: string, k: Kind)
    ensures IsBareIdentifier(TableName(owner, k)) <==>
              && (forall i | 0 <= i < |owner| :: owner[i] == ' ' || IdentifierChar(owner[i]))
              && (owner == [] || owner[0] == ' ' || IdentifierStart(owner[0]))
  {
    var s := Slug(owner);
    var suffix := Suffix(k);
    var t := TableName(owner, k);
    assert t == s + suffix;
    forall i | 0 <= i < |suffix|
      ensures IdentifierChar(suffix[i])
    {
      assert suffix[i] == '_' || IsLower(suffix[i]);
    }
    assert suffix[0] == '_';
    forall i | 0 <= i < |owner|
      ensures IdentifierChar(t[i]) <==> owner[i] == ' ' || IdentifierChar(owner[i])
      ensures IdentifierStart(t[i]) <==> owner[i] == ' ' || IdentifierStart(owner[i])
    {
      assert t[i] == s[i];
    }
    if forall i | 0 <= i < |owner| :: owner[i] == ' ' || IdentifierChar(owner[i]) {
      forall i | 0 <= i < |t|
        ensures IdentifierChar(t[i])
      {
        if i >= |owner| {
          assert t[i] == suffix[i - |owner|];
        }
      }
    }
  }

  /** A form table name is reserved exactly when the owner's name begins with
      `sqlite`, in any case, followed by its end, a space or `_`. */
  lemma ReservedTableName(owner: string, k: Kind)
    ensures IsReservedName(TableName(owner, k)) <==>
              && |owner| >= 6 && Lower(owner[..6]) == "sqlite"
              && (|owner| == 6 || owner[6] == ' ' || owner[6] == '_')
  {
    var s := Slug(owner);
    var suffix := Suffix(k);
    var t := TableName(owner, k);
    assert t == s + suffix;
    TableNameIsSlug(owner, k);
    assert |t| >= 7;
    LowerOfNoUpper(t[..7]);
    assert IsReservedName(t) <==> t[..7] == "sqlite_";
    if |owner| >= 6 {
      assert Lower(owner[..6]) == "sqlite" <==> s[..6] == "sqlite" by {
        forall i | 0 <= i < 6
          ensures s[i] == if Lower(owner[..6])[i] == ' ' then '_' else Lower(owner[..6])[i]
        {
        }
      }
    }
    if |owner| < 6 {
      assert t[6] == suffix[6 - |owner|] != '_';
    } else {
      SlugShape(owner);
      assert t[6] == if |owner| == 6 then suffix[0] else s[6];
      assert t[..6] == s[..6];
      PrefixAndLast(t[..7], "sqlite", '_');
    }
  }

  lemma PrefixAndLast(u: string, p: string, c: char)
    requires |u| == |p| + 1
    ensures u == p + [c] <==> u[..|p|] == p && u[|p|] == c
  {
    if u[..|p|] == p && u[|p|] == c {
      assert u == u[..|p|] + [u[|p|]];
    }
  }

  /** Names a club or event can have that SQLite cannot take unquoted: an
      apostrophe, an ampersand, a leading digit. */
  lemma UnquotableOwnerNames()
    ensures !IsBareIdentifier(TableName("Women's Club", Recruitments))
    ensures !IsBareIdentifier(TableName("Music & Arts", Recruitments))
    ensures !IsBareIdentifier(TableName("24 Hour Hackathon", Applications))
  {
    BareTableName("Women's Club", Recruitments);
    assert !IdentifierChar("Women's Club"[5]);
    BareTableName("Music & Arts", Recruitments);
    assert !IdentifierChar("Music & Arts"[6]);
    BareTableName("24 Hour Hackathon", Applications);
    assert !IdentifierStart("24 Hour Hackathon"[0]);
  }

  /** A plain name parses; a name beginning with `SQLite` parses but is
      reserved. */
  lemma ParsableOwnerNames()
    ensures IsBareIdentifier(TableName("Coding Club", Recruitments))
    ensures IsBareIdentifier(TableName("SQLite", Recruitments))
    ensures !IsReservedName(TableName("Coding Club", Recruitments))
    ensures IsReservedName(TableName("SQLite", Recruitments))
  {
    BareTableName("Coding Club", Recruitments);
    BareTableName("SQLite", Recruitments);
    ReservedTableName("Coding Club", Recruitments);
    ReservedTableName("SQLite", Recruitments);
    assert Lower("SQLite"[..6]) == "sqlite";
    assert Lower("Coding Club"[..6]) != "sqlite" by {
      assert Lower("Coding Club"[..6])[0] == 'c';
    }
  }
}
