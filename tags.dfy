/** The clean-up of a tag value read from the tag tool: `better_capitalize` and
    `transform_tag` of main.py, which transcode.py repeats word for word as the
    static method `TranscodeDir.better_capitalize` and the method
    `TranscodeDir.transform_tag`. */
module Tags {
  import opened PyStr

  function CapitalizeEach(ws: seq<string>): (cs: seq<string>)
    ensures |cs| == |ws|
    ensures forall i :: 0 <= i < |ws| ==> cs[i] == Capitalize(ws[i])
  {
    if ws == [] then [] else [Capitalize(ws[0])] + CapitalizeEach(ws[1..])
  }

  /** The capitalized words of `s`, joined by single blanks. */
  function CapitalizeWords(s: string): string {
    JoinWith(CapitalizeEach(Split(s)), ' ')
  }

  /** `s.split(sep)` yields an empty piece: `s` is empty, starts or ends with `sep`, or
      holds `sep` twice in a row. */
  predicate HasEmptyPiece(s: string, sep: char) {
    s == [] || s[0] == sep || s[|s| - 1] == sep || exists i | 0 <= i < |s| - 1 :: s[i] == sep && s[i + 1] == sep
  }

  /** The input on which `word[0]` meets an empty piece and raises IndexError. */
  predicate RaisesIndexError(capitalized: string) {
    '(' in capitalized && HasEmptyPiece(capitalized, '(')
  }

  /** `s` with its first character and every character after a `sep` upper-cased. */
  function UpperInitials(s: string, sep: char): string {
    seq(|s|, i requires 0 <= i < |s| => if i == 0 || s[i - 1] == sep then Upper(s[i]) else s[i])
  }

  /** What `better_capitalize(string)` returns or raises, stated character by
      character rather than piece by piece. */
  function BetterCapitalized(s: string): Result<string> {
    var cs := CapitalizeWords(s);
    if RaisesIndexError(cs) then Raised else Ok(UpperInitials(cs, '('))
  }

  /** A capitalized word: first character upper case, the others lower case. */
  predicate WordCased(w: string) {
    w != [] && Upper(w[0]) == w[0] && forall i :: 0 < i < |w| ==> Lower(w[i]) == w[i]
  }

  /** Every character that starts the string or follows a blank is upper case, every
      other one lower case. */
  predicate SpaceCased(s: string) {
    forall i :: 0 <= i < |s| ==> s[i] == if i == 0 || s[i - 1] == ' ' then Upper(s[i]) else Lower(s[i])
  }

  /** Title case as `better_capitalize` means it: upper case at the start, after a
      blank and after `(`, lower case everywhere else. */
  predicate TitleCased(s: string) {
    forall i :: 0 <= i < |s| ==>
      s[i] == if i == 0 || s[i - 1] == ' ' || s[i - 1] == '(' then Upper(s[i]) else Lower(s[i])
  }

  lemma CapitalizedWordCased(w: string)
    requires IsWord(w)
    ensures WordCased(Capitalize(w))
  {
    CaseKeepsSpace(w[0]);
    forall i | 0 < i < |w| ensures Lower(Capitalize(w)[i]) == Capitalize(w)[i] {
      CaseKeepsSpace(w[i]);
    }
  }

  lemma {:induction false} JoinedWordsSpaceCased(ws: seq<string>)
    requires AllWords(ws)
    requires forall j :: 0 <= j < |ws| ==> WordCased(ws[j])
    ensures SpaceCased(JoinWith(ws, ' '))
  {
    if |ws| == 1 {
      var w := ws[0];
      CaseKeepsSpace(w[0]);
      forall j | 0 <= j < |w| ensures w[j] != ' ' {
        assert w[j] in w;
      }
    } else if |ws| > 1 {
      var w := ws[0];
      var rest := JoinWith(ws[1..], ' ');
      JoinedWordsSpaceCased(ws[1..]);
      JoinStartsWithWord(ws[1..]);
      var s := w + [' '] + rest;
      forall i | 0 <= i < |s|
        ensures s[i] == if i == 0 || s[i - 1] == ' ' then Upper(s[i]) else Lower(s[i])
      {
        if i == 0 {
          CaseKeepsSpace(w[0]);
        } else if i < |w| {
          assert s[i - 1] == w[i - 1] && w[i - 1] in w;
        } else if i == |w| {
          assert s[i - 1] == w[i - 1] && w[i - 1] in w;
        } else if i == |w| + 1 {
          assert s[i] == ws[1][0];
          CaseKeepsSpace(ws[1][0]);
        } else {
          assert s[i] == rest[i - |w| - 1] && s[i - 1] == rest[i - |w| - 2];
        }
      }
    }
  }

  /** `' '.join(w.capitalize() for w in s.split())` keeps exactly the input's words, each
      capitalized: splitting the result again gives them back; the result has no
      leading, trailing or doubled whitespace and is upper case exactly at word starts. */
  lemma CapitalizeWordsShape(s: string)
    ensures Split(CapitalizeWords(s)) == CapitalizeEach(Split(s))
    ensures Normalized(CapitalizeWords(s))
    ensures SpaceCased(CapitalizeWords(s))
  {
    var ws := CapitalizeEach(Split(s));
    forall j | 0 <= j < |ws| ensures IsWord(ws[j]) && WordCased(ws[j]) {
      CapitalizeKeepsWord(Split(s)[j]);
      CapitalizedWordCased(Split(s)[j]);
    }
    SplitJoinRoundTrip(ws);
    JoinedWordsNormalized(ws);
    JoinedWordsSpaceCased(ws);
  }

  /** A piece without `sep` has an empty piece exactly when it is empty. */
  lemma EmptyPieceOfPiece(p: string, sep: char)
    requires sep !in p
    ensures HasEmptyPiece(p, sep) <==> p == []
  {
    if p != [] {
      forall i | 0 <= i < |p| ensures p[i] != sep {
        assert p[i] in p;
      }
    }
  }

  /** An empty first piece, or an empty piece in the rest, shows in the joined string. */
  lemma EmptyPieceJoinIf(p: string, rest: string, sep: char)
    requires p == [] || HasEmptyPiece(rest, sep)
    ensures HasEmptyPiece(p + [sep] + rest, sep)
  {
    var s := p + [sep] + rest;
    if p == [] {
      assert s[0] == sep;
    } else if rest == [] {
      assert s[|s| - 1] == sep;
    } else if rest[0] == sep {
      assert s[|p|] == sep && s[|p| + 1] == sep;
    } else if rest[|rest| - 1] == sep {
      assert s[|s| - 1] == sep;
    } else {
      var i :| 0 <= i < |rest| - 1 && rest[i] == sep && rest[i + 1] == sep;
      assert s[|p| + 1 + i] == sep && s[|p| + 1 + i + 1] == sep;
    }
  }

  /** An empty piece of the joined string is the first piece, or one of the rest. */
  lemma EmptyPieceJoinOnlyIf(p: string, rest: string, sep: char)
    requires sep !in p && p != []
    requires HasEmptyPiece(p + [sep] + rest, sep)
    ensures HasEmptyPiece(rest, sep)
  {
    var s := p + [sep] + rest;
    forall k | 0 <= k < |p| ensures s[k] != sep {
      assert s[k] == p[k] && p[k] in p;
    }
    if rest != [] {
      assert s[|s| - 1] == rest[|rest| - 1];
      if s[|s| - 1] != sep {
        var i :| 0 <= i < |s| - 1 && s[i] == sep && s[i + 1] == sep;
        if i == |p| {
          assert rest[0] == sep;
        } else if i > |p| {
          assert rest[i - |p| - 1] == sep && rest[i - |p|] == sep;
        }
      }
    }
  }

  lemma SomeEmptyPiece(ps: seq<string>)
    requires |ps| >= 1
    ensures (exists j :: 0 <= j < |ps| && ps[j] == []) <==>
            ps[0] == [] || exists j :: 0 <= j < |ps[1..]| && ps[1..][j] == []
  {
    if exists j :: 0 <= j < |ps| && ps[j] == [] {
      var j :| 0 <= j < |ps| && ps[j] == [];
      if j > 0 {
        assert ps[1..][j - 1] == [];
      }
    }
    if exists j :: 0 <= j < |ps[1..]| && ps[1..][j] == [] {
      var j :| 0 <= j < |ps[1..]| && ps[1..][j] == [];
      assert ps[j + 1] == [];
    }
  }

  /** `sep.join` of pieces free of `sep` has an empty piece exactly when the joined
      string is empty, starts or ends with `sep`, or holds `sep` twice in a row. */
  lemma {:induction false} EmptyPieceIff(ps: seq<string>, sep: char)
    requires |ps| >= 1
    requires forall j :: 0 <= j < |ps| ==> sep !in ps[j]
    ensures (exists j :: 0 <= j < |ps| && ps[j] == []) <==> HasEmptyPiece(JoinWith(ps, sep), sep)
  {
    var p := ps[0];
    SomeEmptyPiece(ps);
    if |ps| == 1 {
      EmptyPieceOfPiece(p, sep);
    } else {
      var rest := JoinWith(ps[1..], sep);
      EmptyPieceIff(ps[1..], sep);
      assert JoinWith(ps, sep) == p + [sep] + rest;
      if p == [] || HasEmptyPiece(rest, sep) {
        EmptyPieceJoinIf(p, rest, sep);
      } else if HasEmptyPiece(p + [sep] + rest, sep) {
        EmptyPieceJoinOnlyIf(p, rest, sep);
      }
    }
  }

  /** `word[0].upper() + word[1:]` for a non-empty piece. */
  function UpperFirst(w: string): string
    requires w != []
  {
    [Upper(w[0])] + w[1..]
  }

  /** Upper-casing the first character of every piece of `sep.join(ps)` upper-cases
      the first character of the joined string and every character after a `sep`,
      and changes nothing else. */
  lemma {:induction false} UpperFirstJoin(ps: seq<string>, fs: seq<string>, sep: char)
    requires |ps| >= 1 && |fs| == |ps|
    requires forall j :: 0 <= j < |ps| ==> ps[j] != [] && sep !in ps[j]
    requires forall j :: 0 <= j < |ps| ==> fs[j] == UpperFirst(ps[j])
    ensures JoinWith(fs, sep) == UpperInitials(JoinWith(ps, sep), sep)
  {
    var p, f := ps[0], fs[0];
    if |ps| > 1 {
      UpperFirstJoin(ps[1..], fs[1..], sep);
      var s, t := JoinWith(ps[1..], sep), JoinWith(fs[1..], sep);
      assert JoinWith(ps, sep) == p + [sep] + s;
      assert JoinWith(fs, sep) == f + [sep] + t;
      var whole := p + [sep] + s;
      var upper := UpperInitials(s, sep);
      assert |f + [sep] + t| == |whole|;
      forall i | 0 <= i < |whole|
        ensures (f + [sep] + t)[i] == if i == 0 || whole[i - 1] == sep then Upper(whole[i]) else whole[i]
      {
        if 0 < i <= |p| {
          assert whole[i - 1] == p[i - 1] && p[i - 1] in p;
        } else if i > |p| + 1 {
          assert whole[i - 1] == s[i - |p| - 2];
          assert (f + [sep] + t)[i] == upper[i - |p| - 1];
        }
      }
      assert f + [sep] + t == UpperInitials(whole, sep);
    } else {
      forall j | 0 <= j < |p| ensures p[j] != sep {
        assert p[j] in p;
      }
      assert f == UpperInitials(p, sep);
    }
  }

  lemma NoParenUnchanged(cs: string)
    requires '(' !in cs && SpaceCased(cs)
    ensures UpperInitials(cs, '(') == cs
  {
    var u := UpperInitials(cs, '(');
    forall i | 0 <= i < |cs| ensures u[i] == cs[i] {
      if i == 0 {
        CaseKeepsSpace(cs[0]);
      } else {
        assert cs[i - 1] in cs;
      }
    }
  }

  /** The bracket loop of `better_capitalize`: the string split at every `(`, the first
      character of each piece upper-cased, the pieces joined again; `word[0]` raises
      on the first empty piece. */
  method UpperPieceInitials(capitalized: string) returns (r: Result<string>)
    ensures r == if HasEmptyPiece(capitalized, '(') then Raised else Ok(UpperInitials(capitalized, '('))
  {
    var pieces := SplitOn(capitalized, '(');
    var finalTag: seq<string> := [];
    for n := 0 to |pieces|
      invariant |finalTag| == n
      invariant forall j :: 0 <= j < n ==> pieces[j] != [] && finalTag[j] == UpperFirst(pieces[j])
    {
      var word := pieces[n];
      if word == [] {
        EmptyPieceIff(pieces, '(');
        return Raised;
      }
      finalTag := finalTag + [UpperFirst(word)];
    }
    EmptyPieceIff(pieces, '(');
    UpperFirstJoin(pieces, finalTag, '(');
    return Ok(JoinWith(finalTag, '('));
  }

  /** `better_capitalize` as main.py writes it: capitalize the words, then, if there
      is a `(`, upper-case the first character of every piece between brackets. */
  method BetterCapitalize(s: string) returns (r: Result<string>)
    ensures r == BetterCapitalized(s)
  {
    var capitalized := CapitalizeWords(s);
    if '(' in capitalized {
      r := UpperPieceInitials(capitalized);
    } else {
      CapitalizeWordsShape(s);
      NoParenUnchanged(capitalized);
      r := Ok(capitalized);
    }
  }

  /** Whatever `better_capitalize` returns is free of leading, trailing and doubled
      whitespace and title-cased: upper case at the start, after a blank and after
      `(`, lower case elsewhere. */
  lemma BetterCapitalizedShape(s: string)
    requires BetterCapitalized(s).Ok?
    ensures Normalized(BetterCapitalized(s).value)
    ensures TitleCased(BetterCapitalized(s).value)
  {
    var cs := CapitalizeWords(s);
    var r := BetterCapitalized(s).value;
    CapitalizeWordsShape(s);
    forall i | 0 <= i < |r|
      ensures (IsSpace(r[i]) <==> IsSpace(cs[i])) && (r[i] == ' ' <==> cs[i] == ' ') && (r[i] == '(' <==> cs[i] == '(')
    {
      CaseKeepsSpace(cs[i]);
    }
    forall i | 0 <= i < |r|
      ensures r[i] == if i == 0 || r[i - 1] == ' ' || r[i - 1] == '(' then Upper(r[i]) else Lower(r[i])
    {
      CaseKeepsSpace(cs[i]);
      CaseKeepsSpace(Upper(cs[i]));
    }
  }

  /** A tag value whose first word starts with `(`, leading blanks or not, makes
      `better_capitalize` raise. */
  lemma LeadingParenRaises(s: string)
    requires Split(s) != [] && Split(s)[0][0] == '('
    ensures BetterCapitalized(s) == Raised
  {
    var ws := Split(s);
    var cws := CapitalizeEach(ws);
    assert cws[0] == Capitalize(ws[0]);
    forall j | 0 <= j < |cws| ensures IsWord(cws[j]) {
      CapitalizeKeepsWord(ws[j]);
    }
    JoinStartsWithWord(cws);
    assert CapitalizeWords(s)[0] == '(';
  }

  /** The pattern `transform_tag` strips: the tag name upper-cased, then `=`. */
  function TagPrefix(metaflacString: string): string {
    UpperStr(metaflacString) + "="
  }

  /** The first two steps of `transform_tag`: upper-case the tool's output, remove
      every `NAME=`, remove every newline. */
  function StripTag(tagString: string, metaflacString: string): (r: string)
    ensures '\n' !in r
  {
    RemoveChar(RemoveAll(UpperStr(tagString), TagPrefix(metaflacString)), '\n')
  }

  /** `transform_tag(tag_string, metaflac_string)`: strip the tool's output, then
      `better_capitalize` it. */
  function TransformTag(tagString: string, metaflacString: string): (r: Result<string>)
    ensures r.Raised? <==> RaisesIndexError(CapitalizeWords(StripTag(tagString, metaflacString)))
    ensures r.Ok? ==> '\n' !in r.value && Normalized(r.value) && TitleCased(r.value)
  {
    var r := BetterCapitalized(StripTag(tagString, metaflacString));
    if r.Ok? then
      BetterCapitalizedShape(StripTag(tagString, metaflacString));
      r
    else r
  }

  lemma UpperStrConcat(a: string, b: string)
    ensures UpperStr(a + b) == UpperStr(a) + UpperStr(b)
  {
    var l, r := UpperStr(a + b), UpperStr(a) + UpperStr(b);
    forall i | 0 <= i < |l| ensures l[i] == r[i] {
      if i < |a| {
        assert (a + b)[i] == a[i];
      } else {
        assert (a + b)[i] == b[i - |a|];
      }
    }
    assert l == r;
  }

  lemma NoPrefixBeforeNewline(p: string, t: string)
    requires p != [] && p[|p| - 1] != '\n'
    requires !Occurs(p, t)
    ensures !Occurs(p, t + "\n")
  {
    var s := t + "\n";
    forall i | 0 <= i <= |s| - |p| ensures !OccursAt(p, s, i) {
      if i + |p| == |s| {
        assert s[i..i + |p|][|p| - 1] == s[|s| - 1] == '\n';
      } else {
        assert s[i..i + |p|] == t[i..i + |p|];
        assert !OccursAt(p, t, i);
      }
    }
  }

  lemma UpperToolLine(name: string, v: string)
    ensures UpperStr(name + "=" + v + "\n") == TagPrefix(name) + (UpperStr(v) + "\n")
  {
    var eq, nl := "=", "\n";
    assert UpperStr(eq) == eq by {
      assert |UpperStr(eq)| == 1 && UpperStr(eq)[0] == Upper('=');
    }
    assert UpperStr(nl) == nl by {
      assert |UpperStr(nl)| == 1 && UpperStr(nl)[0] == Upper('\n');
    }
    UpperStrConcat(name + eq, v + nl);
    UpperStrConcat(name, eq);
    UpperStrConcat(v, nl);
    assert name + eq + v + nl == (name + eq) + (v + nl);
  }

  lemma RemoveAllLeading(p: string, t: string)
    requires p != []
    ensures RemoveAll(p + t, p) == RemoveAll(t, p)
  {
    assert (p + t)[..|p|] == p;
    assert (p + t)[|p|..] == t;
  }

  lemma RemoveTrailingNewline(v: string)
    requires '\n' !in v
    ensures RemoveChar(UpperStr(v) + "\n", '\n') == UpperStr(v)
  {
    var up := UpperStr(v);
    assert '\n' !in up by {
      forall i | 0 <= i < |up| ensures up[i] != '\n' {
        assert v[i] in v;
      }
    }
    RemoveCharConcat(up, "\n", '\n');
    assert RemoveChar("\n", '\n') == [];
    assert up + [] == up;
  }

  /** The tool prints one line `lineName=value`, where `lineName` is the queried name in
      any case: stripping leaves exactly the value in upper case. */
  lemma StripToolLine(lineName: string, name: string, v: string)
    requires UpperStr(lineName) == UpperStr(name)
    requires '\n' !in v
    requires !Occurs(TagPrefix(name), UpperStr(v))
    ensures StripTag(lineName + "=" + v + "\n", name) == UpperStr(v)
  {
    var p := TagPrefix(name);
    var up := UpperStr(v);
    UpperToolLine(lineName, v);
    RemoveAllLeading(p, up + "\n");
    NoPrefixBeforeNewline(p, up);
    RemoveAllAbsent(up + "\n", p);
    RemoveTrailingNewline(v);
  }

  /** For the tool's one-line output `lineName=value`, `lineName` being the queried name
      in any case, `transform_tag` is `better_capitalize` of the upper-cased value. */
  lemma TransformTagOfToolLine(lineName: string, name: string, v: string)
    requires UpperStr(lineName) == UpperStr(name)
    requires '\n' !in v
    requires !Occurs(TagPrefix(name), UpperStr(v))
    ensures TransformTag(lineName + "=" + v + "\n", name) == BetterCapitalized(UpperStr(v))
  {
    StripToolLine(lineName, name, v);
  }
}
