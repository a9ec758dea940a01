/** Python's built-in string operations as the tag clean-up uses them, restricted to
    ASCII case mapping and ASCII whitespace, and the outcome of a call that may raise. */
module PyStr {

  /** The outcome of a Python call: a value, or an exception escaping the call. */
  datatype Result<T> = Ok(value: T) | Raised

  /** `str.isspace()` of one character, within ASCII: tab to carriage return, the
      four separator controls 0x1C-0x1F, and the blank. */
  predicate IsSpace(c: char) {
    c == ' ' || '\t' <= c <= '\r' || '\U{1c}' <= c <= '\U{1f}'
  }

  function Upper(c: char): (u: char)
    ensures 'a' <= c <= 'z' ==> 'A' <= u <= 'Z' && u as int == c as int - 32
    ensures !('a' <= c <= 'z') ==> u == c
  {
    if 'a' <= c <= 'z' then (c as int - 32) as char else c
  }

  function Lower(c: char): (l: char)
    ensures 'A' <= c <= 'Z' ==> 'a' <= l <= 'z' && l as int == c as int + 32
    ensures !('A' <= c <= 'Z') ==> l == c
  {
    if 'A' <= c <= 'Z' then (c as int + 32) as char else c
  }

  /** Case mapping never turns a blank into a letter or a letter into a blank. */
  lemma CaseKeepsSpace(c: char)
    ensures IsSpace(Upper(c)) <==> IsSpace(c)
    ensures IsSpace(Lower(c)) <==> IsSpace(c)
    ensures Upper(Upper(c)) == Upper(c) && Lower(Lower(c)) == Lower(c)
    ensures Upper(c) == '(' <==> c == '('
    ensures Upper(c) == ' ' <==> c == ' '
  {
  }

  /** `s.upper()` */
  function UpperStr(s: string): (u: string)
    ensures |u| == |s|
    ensures forall i :: 0 <= i < |s| ==> u[i] == Upper(s[i])
  {
    if s == [] then [] else [Upper(s[0])] + UpperStr(s[1..])
  }

  /** `s.lower()` */
  function LowerStr(s: string): (l: string)
    ensures |l| == |s|
    ensures forall i :: 0 <= i < |s| ==> l[i] == Lower(s[i])
  {
    if s == [] then [] else [Lower(s[0])] + LowerStr(s[1..])
  }

  /** `w.capitalize()`: the first character upper-cased, every other one lower-cased. */
  function Capitalize(w: string): (r: string)
    ensures |r| == |w|
    ensures w != [] ==> r[0] == Upper(w[0])
    ensures forall i :: 0 < i < |w| ==> r[i] == Lower(w[i])
  {
    if w == [] then [] else [Upper(w[0])] + LowerStr(w[1..])
  }

  /** A piece `str.split()` can return: non-empty, free of whitespace. */
  predicate IsWord(w: string) {
    w != [] && forall c :: c in w ==> !IsSpace(c)
  }

  lemma CapitalizeKeepsWord(w: string)
    requires IsWord(w)
    ensures IsWord(Capitalize(w))
  {
    var r := Capitalize(w);
    forall c | c in r ensures !IsSpace(c) {
      var i :| 0 <= i < |r| && r[i] == c;
      CaseKeepsSpace(w[i]);
    }
  }

  /** Length of the leading run of non-whitespace characters. */
  function WordEnd(s: string): (n: nat)
    ensures n <= |s|
    ensures forall i :: 0 <= i < n ==> !IsSpace(s[i])
    ensures n < |s| ==> IsSpace(s[n])
  {
    if s == [] || IsSpace(s[0]) then 0 else 1 + WordEnd(s[1..])
  }

  /** `s.split()` with no argument: the maximal runs of non-whitespace, in order. */
  function Split(s: string): (ws: seq<string>)
    ensures forall i :: 0 <= i < |ws| ==> IsWord(ws[i])
    decreases |s|
  {
    if s == [] then []
    else if IsSpace(s[0]) then Split(s[1..])
    else
      var n := WordEnd(s);
      assert forall c :: c in s[..n] ==> !IsSpace(c);
      [s[..n]] + Split(s[n..])
  }

  /** `sep.join(ps)` for a one-character separator. */
  function JoinWith(ps: seq<string>, sep: char): string {
    if |ps| == 0 then []
    else if |ps| == 1 then ps[0]
    else ps[0] + [sep] + JoinWith(ps[1..], sep)
  }

  lemma JoinWithCons(p: string, ps: seq<string>, sep: char)
    requires ps != []
    ensures JoinWith([p] + ps, sep) == p + [sep] + JoinWith(ps, sep)
  {
    assert ([p] + ps)[1..] == ps;
  }

  /** `s.split(sep)` for a one-character separator: the pieces between separators,
      empty pieces included. */
  function SplitOn(s: string, sep: char): (ps: seq<string>)
    ensures |ps| >= 1
    ensures JoinWith(ps, sep) == s
    ensures forall i :: 0 <= i < |ps| ==> sep !in ps[i]
  {
    if s == [] then [[]]
    else
      var rest := SplitOn(s[1..], sep);
      assert s == [s[0]] + s[1..];
      if s[0] == sep then
        SeparatorPiece(rest, sep);
        [[]] + rest
      else
        ExtendFirstPiece(s[0], rest, sep);
        [[s[0]] + rest[0]] + rest[1..]
  }

  /** A separator in front of the pieces starts a new, empty piece. */
  lemma SeparatorPiece(rest: seq<string>, sep: char)
    requires rest != [] && forall i :: 0 <= i < |rest| ==> sep !in rest[i]
    ensures JoinWith([[]] + rest, sep) == [sep] + JoinWith(rest, sep)
    ensures forall i :: 0 <= i < |[[]] + rest| ==> sep !in ([[]] + rest)[i]
  {
    JoinWithCons([], rest, sep);
  }

  /** Any other character in front of the pieces extends the first piece. */
  lemma ExtendFirstPiece(c: char, rest: seq<string>, sep: char)
    requires c != sep && rest != [] && forall i :: 0 <= i < |rest| ==> sep !in rest[i]
    ensures JoinWith([[c] + rest[0]] + rest[1..], sep) == [c] + JoinWith(rest, sep)
    ensures forall i :: 0 <= i < |rest| ==> sep !in ([[c] + rest[0]] + rest[1..])[i]
  {
    var head := [c] + rest[0];
    if |rest| > 1 {
      JoinWithCons(rest[0], rest[1..], sep);
      JoinWithCons(head, rest[1..], sep);
      assert rest == [rest[0]] + rest[1..];
    }
    forall i | 0 <= i < |rest|
      ensures sep !in ([head] + rest[1..])[i]
    {
      if i == 0 {
        assert sep !in rest[0];
      } else {
        assert ([head] + rest[1..])[i] == rest[i];
      }
    }
  }

  /** No leading, trailing or doubled whitespace, and blanks are the only whitespace. */
  predicate Normalized(s: string) {
    forall i :: 0 <= i < |s| && IsSpace(s[i]) ==> s[i] == ' ' && 0 < i < |s| - 1 && !IsSpace(s[i + 1])
  }

  predicate AllWords(ws: seq<string>) {
    forall i :: 0 <= i < |ws| ==> IsWord(ws[i])
  }

  lemma WordEndOfWordThenSpace(w: string, t: string)
    requires IsWord(w)
    requires t == [] || IsSpace(t[0])
    ensures WordEnd(w + t) == |w|
    decreases |w|
  {
    if |w| > 1 {
      assert (w + t)[1..] == w[1..] + t;
      WordEndOfWordThenSpace(w[1..], t);
    } else {
      assert (w + t)[1..] == t;
    }
  }

  lemma SplitOfWordThenSpace(w: string, t: string)
    requires IsWord(w)
    requires t == [] || IsSpace(t[0])
    ensures Split(w + t) == [w] + Split(t)
  {
    WordEndOfWordThenSpace(w, t);
    assert (w + t)[..|w|] == w;
    assert (w + t)[|w|..] == t;
  }

  /** Splitting the blank-joined words gives the words back: `' '.join` and `split()`
      form a round trip on whitespace-free, non-empty words. */
  lemma {:induction false} SplitJoinRoundTrip(ws: seq<string>)
    requires AllWords(ws)
    ensures Split(JoinWith(ws, ' ')) == ws
  {
    if |ws| == 1 {
      SplitOfWordThenSpace(ws[0], []);
      assert ws[0] + [] == ws[0];
    } else if |ws| > 1 {
      var rest := JoinWith(ws[1..], ' ');
      SplitOfWordThenSpace(ws[0], [' '] + rest);
      assert ws[0] + [' '] + rest == ws[0] + ([' '] + rest);
      assert ([' '] + rest)[1..] == rest;
      SplitJoinRoundTrip(ws[1..]);
      assert ws == [ws[0]] + ws[1..];
    }
  }

  /** Words joined by single blanks are normalized. */
  lemma {:induction false} JoinedWordsNormalized(ws: seq<string>)
    requires AllWords(ws)
    ensures Normalized(JoinWith(ws, ' '))
  {
    if |ws| > 1 {
      var rest := JoinWith(ws[1..], ' ');
      JoinedWordsNormalized(ws[1..]);
      var s := ws[0] + [' '] + rest;
      assert IsWord(ws[0]);
      assert rest != [] && !IsSpace(rest[0]) by {
        JoinStartsWithWord(ws[1..]);
      }
      forall i | 0 <= i < |s| && IsSpace(s[i])
        ensures s[i] == ' ' && 0 < i < |s| - 1 && !IsSpace(s[i + 1])
      {
        if i > |ws[0]| {
          assert s[i] == rest[i - |ws[0]| - 1];
        }
      }
    }
  }

  lemma {:induction false} JoinStartsWithWord(ws: seq<string>)
    requires AllWords(ws) && ws != []
    ensures JoinWith(ws, ' ') != [] && JoinWith(ws, ' ')[0] == ws[0][0]
  {
    assert ws[0][0] in ws[0];
  }

  /** `pat` occurs in `s` at index `i`. */
  predicate OccursAt(pat: string, s: string, i: int) {
    0 <= i <= |s| - |pat| && s[i..i + |pat|] == pat
  }

  /** `pat in s` */
  predicate Occurs(pat: string, s: string) {
    exists i | 0 <= i <= |s| - |pat| :: OccursAt(pat, s, i)
  }

  /** `s.replace(pat, '')`: the left-most, non-overlapping occurrences are removed. */
  function RemoveAll(s: string, pat: string): (r: string)
    requires pat != []
    ensures |r| <= |s|
    decreases |s|
  {
    if |s| < |pat| then s
    else if s[..|pat|] == pat then RemoveAll(s[|pat|..], pat)
    else [s[0]] + RemoveAll(s[1..], pat)
  }

  /** `replace` changes nothing in a string that does not contain the pattern. */
  lemma {:induction false} RemoveAllAbsent(s: string, pat: string)
    requires pat != [] && !Occurs(pat, s)
    ensures RemoveAll(s, pat) == s
    decreases |s|
  {
    if |s| >= |pat| {
      assert !OccursAt(pat, s, 0);
      assert !Occurs(pat, s[1..]) by {
        if Occurs(pat, s[1..]) {
          var i :| 0 <= i <= |s[1..]| - |pat| && OccursAt(pat, s[1..], i);
          assert 0 <= i + 1 <= |s| - |pat|;
          assert s[1..][i..i + |pat|] == s[i + 1..i + 1 + |pat|];
          assert OccursAt(pat, s, i + 1);
        }
      }
      RemoveAllAbsent(s[1..], pat);
    }
  }

  /** `s.replace(c, '')` for one character: every `c` dropped, the rest kept in order. */
  function RemoveChar(s: string, c: char): (r: string)
    ensures c !in r
    ensures c !in s ==> r == s
    ensures forall x :: x in r ==> x in s
  {
    if s == [] then []
    else if s[0] == c then RemoveChar(s[1..], c)
    else [s[0]] + RemoveChar(s[1..], c)
  }

  lemma {:induction false} RemoveCharConcat(a: string, b: string, c: char)
    ensures RemoveChar(a + b, c) == RemoveChar(a, c) + RemoveChar(b, c)
  {
    if a != [] {
      assert (a + b)[1..] == a[1..] + b;
      RemoveCharConcat(a[1..], b, c);
    } else {
      assert a + b == b;
    }
  }

  predicate StartsWith(s: string, prefix: string) {
    |prefix| <= |s| && s[..|prefix|] == prefix
  }

  predicate EndsWith(s: string, suffix: string) {
    |suffix| <= |s| && s[|s| - |suffix|..] == suffix
  }
}
