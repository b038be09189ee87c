/** The multi-source checker's notification text (`notify`): a short site
    label taken from the URL, and the message announcing a page's new status.
    Sending it is not modelled; a run only records which notifications it
    emits. */
module Notify {
  import opened Types
  import opened Text

  /** `url.split("//")[1].split("/")[0] if "//" in url else url`: the text
      between the first `//` and the next `/` (or the end), or the whole URL
      when it has no `//`. */
  function SiteLabel(url: string): (site: string)
    ensures !Contains(url, "//") ==> site == url
    ensures Contains(url, "//") ==>
              var rest := url[IndexOf(url, "//").value + 2..];
              && |site| <= |rest| && site == rest[..|site|]
              && '/' !in site
              && (|site| == |rest| || rest[|site|] == '/')
  {
    if Contains(url, "//") then
      SplitSecond(url, "//");
      LabelOfRest(url[IndexOf(url, "//").value + 2..]);
      Split(Split(url, "//")[1], "/")[0]
    else url
  }

  /** The part of `rest` before its first `//`, cut again before its first
      `/`, is the part of `rest` before its first `/`. */
  lemma LabelOfRest(rest: string)
    ensures var site := Split(Split(rest, "//")[0], "/")[0];
            && |site| <= |rest| && site == rest[..|site|]
            && '/' !in site
            && (|site| == |rest| || rest[|site|] == '/')
  {
    var piece := Split(rest, "//")[0];
    SplitHead(rest, "//");
    var site := Split(piece, "/")[0];
    SplitHead(piece, "/");
    assert site == rest[..|site|] by {
      assert rest[..|piece|][..|site|] == rest[..|site|];
    }
    SplitPiecesFree(piece, "/");
    ContainsChar(site, '/');
    if |site| < |piece| {
      assert piece[|site|..|site| + 1] == "/";
      assert rest[|site|] == piece[|site|];
    } else if |site| < |rest| {
      assert rest[|piece|..|piece| + 2] == "//";
    }
  }

  /** The message text, exactly as formatted by the source. */
  function Message(url: string, s: Status): (m: string)
    ensures Contains(m, SiteLabel(url))
    ensures Contains(m, UpperName(s))
    ensures Contains(m, url)
  {
    var head := "📢 PolExamBot: Изменение статуса!\n\n🌐 Сайт: ";
    var mid := "\n📊 Новый статус: ";
    var tail := "\n🔗 ";
    FilledContains(head, SiteLabel(url), mid, UpperName(s), tail, url);
    head + SiteLabel(url) + mid + UpperName(s) + tail + url
  }

  /** Two notifications about the same page with different statuses never
      read the same. */
  lemma MessageTellsStatus(url: string, s1: Status, s2: Status)
    requires s1 != s2
    ensures Message(url, s1) != Message(url, s2)
  {
    assert |Message(url, s1)| - |UpperName(s1)| == |Message(url, s2)| - |UpperName(s2)|;
  }
}
