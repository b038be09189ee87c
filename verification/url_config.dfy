/** The list of pages to check, read once at start-up from the environment:
    `CHECK_URLS` (comma- or newline-separated), else the older single
    `CHECK_URL`, else a built-in list. An unset variable reads as "". */
module UrlConfig {
  import opened Text

  /** How many pages the built-in list holds. */
  const DefaultUrlCount: nat := 8

  /** Entry `k` of the built-in list used when the environment names no page.
      Each address is written in pieces cut at its path separators; glued
      together they are the source's literals. */
  function DefaultUrl(k: nat): (u: string)
    requires k < DefaultUrlCount
  {
    match k
    case 0 => "https://" + "polonicum.uw.edu.pl" + "/pl" + "/egzaminy-certyfikatowe/"
    case 1 => "https://" + "san.edu.pl" + "/egzaminy-certyfikatowe" + "-z-jezyka-polskiego"
    case 2 => "https://" + "sjo.sggw.edu.pl" + "/egzaminy-certyfikatowe/"
    case 3 => "https://" + "www.sgh.waw.pl" + "/egzamin-panstwowy" + "-z-jezyka-polskiego"
    case 4 => "https://" + "irk.uksw.edu.pl" + "/pl/offer/EGZ/"
    case 5 => "https://" + "www.wum.edu.pl" + "/dla-kandydatow" + "/egzaminy-certyfikatowe"
    case 6 => "https://" + "chowaniak-school.pl" + "/page" + "/egzamin-certyfikatowy"
    case _ => "https://" + "certyfikatpolski.pl" + "/rejestracja-na-egzamin/"
  }

  /** Each built-in entry's length and the first character of its host; no
      two entries share both. */
  const DefaultUrlMarks: seq<(nat, char)> :=
    [(54, 'p'), (60, 's'), (47, 's'), (59, 'w'), (37, 'i'), (60, 'w'), (54, 'c'), (51, 'c')]

  lemma DefaultUrlLength(k: nat)
    requires k < DefaultUrlCount
    ensures |DefaultUrl(k)| == DefaultUrlMarks[k].0
  {
    match k
    case 0 => case 1 => case 2 => case 3 => case 4 => case 5 => case 6 => case _ =>
  }

  lemma DefaultUrlHostInitial(k: nat)
    requires k < DefaultUrlCount
    ensures |DefaultUrl(k)| > 8 && DefaultUrl(k)[8] == DefaultUrlMarks[k].1
  {
    match k
    case 0 => case 1 => case 2 => case 3 => case 4 => case 5 => case 6 => case _ =>
  }

  /** No two entries of the built-in list are the same page. */
  lemma DefaultUrlsDiffer(i: nat, j: nat)
    requires i < j < DefaultUrlCount
    ensures DefaultUrl(i) != DefaultUrl(j)
  {
    DefaultUrlLength(i);
    DefaultUrlLength(j);
    DefaultUrlHostInitial(i);
    DefaultUrlHostInitial(j);
  }

  /** The built-in list, in the source's order: eight distinct https addresses. */
  function DefaultUrls(): (r: seq<string>)
    ensures |r| == DefaultUrlCount
    ensures forall k :: 0 <= k < |r| ==> r[k] == DefaultUrl(k) && r[k] != []
    ensures forall i, j :: 0 <= i < j < |r| ==> r[i] != r[j]
  {
    var r := seq(DefaultUrlCount, k requires 0 <= k < DefaultUrlCount => DefaultUrl(k));
    forall k | 0 <= k < |r|
      ensures r[k] != []
    {
      DefaultUrlHostInitial(k);
    }
    forall i, j | 0 <= i < j < |r|
      ensures r[i] != r[j]
    {
      DefaultUrlsDiffer(i, j);
    }
    r
  }

  /** An entry as the `CHECK_URLS` branch produces it: non-empty, no
      surrounding whitespace, no separator inside. */
  predicate CleanEntry(u: string) {
    u != [] && Trimmed(u) && ',' !in u && '\n' !in u
  }

  /** `[p.strip() for p in pieces if p.strip()]`: the non-blank pieces,
      stripped, in their original order. */
  function StripNonBlank(pieces: seq<string>): (r: seq<string>)
    ensures |r| <= |pieces|
    ensures forall k :: 0 <= k < |r| ==> r[k] != [] && Trimmed(r[k])
    decreases |pieces|
  {
    if |pieces| == 0 then []
    else
      var e := Strip(pieces[0]);
      var rest := StripNonBlank(pieces[1..]);
      if e == [] then rest
      else
        assert Trimmed(e);
        var r := [e] + rest;
        assert forall k :: 1 <= k < |r| ==> r[k] == rest[k - 1];
        r
  }

  /** A character no piece holds is in no entry. */
  lemma {:induction false} StripNonBlankAvoids(pieces: seq<string>, c: char)
    requires forall j :: 0 <= j < |pieces| ==> c !in pieces[j]
    ensures forall k :: 0 <= k < |StripNonBlank(pieces)| ==> c !in StripNonBlank(pieces)[k]
    decreases |pieces|
  {
    if |pieces| > 0 {
      StripAvoidsChar(pieces[0], c);
      StripNonBlankAvoids(pieces[1..], c);
    }
  }

  /** Pieces that are already clean survive the comprehension unchanged. */
  lemma {:induction false} StripNonBlankClean(pieces: seq<string>)
    requires forall j :: 0 <= j < |pieces| ==> pieces[j] != [] && Trimmed(pieces[j])
    ensures StripNonBlank(pieces) == pieces
    decreases |pieces|
  {
    if |pieces| > 0 {
      StripTrimmed(pieces[0]);
      StripNonBlankClean(pieces[1..]);
      assert pieces == [pieces[0]] + pieces[1..];
    }
  }

  /** The entries a non-blank `CHECK_URLS` value lists: newlines count as
      commas, then the comma-separated pieces are stripped and blanks dropped. */
  function ListedUrls(raw: string): (r: seq<string>)
    ensures forall k :: 0 <= k < |r| ==> CleanEntry(r[k])
  {
    var replaced := ReplaceChar(raw, '\n', ',');
    var pieces := Split(replaced, ",");
    SplitPiecesFree(replaced, ",");
    forall j | 0 <= j < |pieces|
      ensures ',' !in pieces[j] && '\n' !in pieces[j]
    {
      ContainsChar(pieces[j], ',');
      if '\n' in pieces[j] {
        JoinKeepsPartChars(pieces, ",", j, '\n');
      }
    }
    StripNonBlankAvoids(pieces, ',');
    StripNonBlankAvoids(pieces, '\n');
    StripNonBlank(pieces)
  }

  /** The comprehension keeps a single piece, stripped, exactly when it is
      not blank. */
  lemma StripNonBlankOne(p: string)
    ensures StripNonBlank([p]) == if Strip(p) == [] then [] else [Strip(p)]
  {
    assert [p][1..] == [];
  }

  /** The comprehension on a first piece followed by the rest. */
  lemma StripNonBlankCons(p: string, rest: seq<string>)
    ensures StripNonBlank([p] + rest) == StripNonBlank([p]) + StripNonBlank(rest)
  {
    assert ([p] + rest)[0] == p;
    assert ([p] + rest)[1..] == rest;
    StripNonBlankOne(p);
  }

  /** The comprehension works piece by piece: on a concatenation it is the
      concatenation of its results, so every non-blank piece is kept, stripped,
      in its place. */
  lemma {:induction false} StripNonBlankAppend(a: seq<string>, b: seq<string>)
    ensures StripNonBlank(a + b) == StripNonBlank(a) + StripNonBlank(b)
    decreases |a|
  {
    if |a| == 0 {
      assert a + b == b;
    } else {
      var head := StripNonBlank([a[0]]);
      calc {
        StripNonBlank(a + b);
        { assert a + b == [a[0]] + (a[1..] + b); }
        StripNonBlank([a[0]] + (a[1..] + b));
        { StripNonBlankCons(a[0], a[1..] + b); }
        head + StripNonBlank(a[1..] + b);
        { StripNonBlankAppend(a[1..], b); }
        head + (StripNonBlank(a[1..]) + StripNonBlank(b));
        (head + StripNonBlank(a[1..])) + StripNonBlank(b);
        { assert a == [a[0]] + a[1..]; StripNonBlankCons(a[0], a[1..]); }
        StripNonBlank(a) + StripNonBlank(b);
      }
    }
  }

  /** Text holding no separator lists itself, stripped, or nothing when it is
      blank. */
  lemma ListedOne(p: string)
    requires ',' !in p && '\n' !in p
    ensures ListedUrls(p) == if Strip(p) == [] then [] else [Strip(p)]
  {
    ReplaceAbsent(p, '\n', ',');
    SplitNoSep(p, ',');
    StripNonBlankOne(p);
  }

  /** A comma or a newline separates the listing: the entries are those of the
      text before it followed by those of the text after it. */
  lemma ListedAppend(x: string, c: char, y: string)
    requires c == ',' || c == '\n'
    ensures ListedUrls(x + [c] + y) == ListedUrls(x) + ListedUrls(y)
  {
    var rx, ry := ReplaceChar(x, '\n', ','), ReplaceChar(y, '\n', ',');
    ReplaceAppend(x + [c], y, '\n', ',');
    ReplaceAppend(x, [c], '\n', ',');
    assert ReplaceChar([c], '\n', ',') == [','] by {
      assert [c][1..] == [];
    }
    assert ReplaceChar(x + [c] + y, '\n', ',') == rx + [','] + ry;
    SplitAppend(rx, ',', ry);
    StripNonBlankAppend(Split(rx, ","), Split(ry, ","));
  }

  /** Pieces free of separators, joined by commas or by newlines, list exactly
      their non-blank pieces, stripped, in order: surrounding whitespace and
      blank entries are tolerated. */
  lemma {:induction false} ListedPieces(us: seq<string>, sep: char)
    requires |us| >= 1
    requires sep == ',' || sep == '\n'
    requires forall k :: 0 <= k < |us| ==> ',' !in us[k] && '\n' !in us[k]
    ensures ListedUrls(Join(us, [sep])) == StripNonBlank(us)
    decreases |us|
  {
    ListedOne(us[0]);
    StripNonBlankOne(us[0]);
    if |us| > 1 {
      ListedPieces(us[1..], sep);
      assert Join(us, [sep]) == us[0] + [sep] + Join(us[1..], [sep]);
      ListedAppend(us[0], sep, Join(us[1..], [sep]));
      assert us == [us[0]] + us[1..];
      StripNonBlankAppend([us[0]], us[1..]);
    }
  }

  /** The final `CHECK_URLS` list: never empty and never holding an empty
      entry. A non-blank `CHECK_URLS` wins, and if it lists nothing but
      separators the built-in list is used (`CHECK_URL` is not consulted);
      a blank one falls back to `CHECK_URL` as given, then to the built-in
      list. */
  function ParseUrls(checkUrls: string, checkUrl: string): (r: seq<string>)
    ensures |r| > 0
    ensures forall k :: 0 <= k < |r| ==> r[k] != []
    ensures Strip(checkUrls) != [] && ListedUrls(Strip(checkUrls)) != [] ==>
              r == ListedUrls(Strip(checkUrls)) && forall k :: 0 <= k < |r| ==> CleanEntry(r[k])
    ensures Strip(checkUrls) != [] && ListedUrls(Strip(checkUrls)) == [] ==> r == DefaultUrls()
    ensures Strip(checkUrls) == [] && checkUrl != [] ==> r == [checkUrl]
    ensures Strip(checkUrls) == [] && checkUrl == [] ==> r == DefaultUrls()
  {
    var raw := Strip(checkUrls);
    var listed :=
      if raw != [] then ListedUrls(raw)
      else if checkUrl != [] then [checkUrl]
      else [];
    if listed == [] then DefaultUrls() else listed
  }

  /** The pieces of a joined list of clean entries are the entries again. */
  lemma ListedJoined(us: seq<string>, sep: char)
    requires |us| >= 1
    requires sep == ',' || sep == '\n'
    requires forall k :: 0 <= k < |us| ==> CleanEntry(us[k])
    ensures ListedUrls(Join(us, [sep])) == us
  {
    var s := Join(us, [sep]);
    if sep == ',' {
      JoinAvoidsChar(us, [sep], '\n');
      ReplaceAbsent(s, '\n', ',');
    } else {
      ReplaceJoin(us, '\n', ',');
    }
    assert ReplaceChar(s, '\n', ',') == Join(us, [',']);
    SplitJoin(us, ',');
    StripNonBlankClean(us);
  }

  /** A list of clean URLs written into `CHECK_URLS` separated by commas, or
      by newlines, is read back as exactly that list, whatever `CHECK_URL`
      holds. */
  lemma ParseJoined(us: seq<string>, sep: char, checkUrl: string)
    requires |us| >= 1
    requires sep == ',' || sep == '\n'
    requires forall k :: 0 <= k < |us| ==> CleanEntry(us[k])
    ensures ParseUrls(Join(us, [sep]), checkUrl) == us
  {
    JoinedTrimmed(us, [sep]);
    ListedJoined(us, sep);
    ParseTrimmedList(Join(us, [sep]), checkUrl, us);
  }

  /** Clean entries joined by a non-space separator need no stripping. */
  lemma JoinedTrimmed(us: seq<string>, sep: string)
    requires |us| >= 1
    requires forall k :: 0 <= k < |us| ==> CleanEntry(us[k])
    ensures Strip(Join(us, sep)) == Join(us, sep) != []
  {
    JoinEnds(us, sep);
    StripTrimmed(Join(us, sep));
  }

  /** A `CHECK_URLS` value with no surrounding whitespace that lists some
      entries parses to those entries. */
  lemma ParseTrimmedList(s: string, checkUrl: string, us: seq<string>)
    requires Strip(s) == s != []
    requires ListedUrls(s) == us != []
    ensures ParseUrls(s, checkUrl) == us
  {
  }
}
