/** The edition resolver: date tokens, the publisher's PDF URL for a day, and the scan over
    today and the seven days before it that returns the first edition the publisher has. */
module Newspaper {
  import opened Wrappers
  import opened Decimal
  import opened Calendar

  const BaseUrl: string := "https://www.nomo-norderney.de"
  const EditionDir: string := "/media/ausgaben/"
  const FilePrefix: string := "nomo_"
  const TitlePrefix: string := "Norderneyer Morgen - "
  const NotFoundMessage: string := "Keine aktuelle Zeitung gefunden"
  /** Offsets 0 through LastOffset days back are tried. */
  const LastOffset: nat := 7

  /** `DD_MM_YYYY`: padded day, padded month, unpadded year. */
  function FormatDate(d: Date): (s: string)
    requires ValidDate(d)
  {
    Pad2(d.day) + "_" + Pad2(d.month) + "_" + IntToString(d.year)
  }

  /** `DD.MM.YYYY`, the date shown to readers. */
  function FormatDisplayDate(d: Date): (s: string)
    requires ValidDate(d)
  {
    Pad2(d.day) + "." + Pad2(d.month) + "." + IntToString(d.year)
  }

  /** `{BaseUrl}/media/ausgaben/{year}/{MM}/nomo_{DD_MM_YYYY}.pdf`. The parentheses group the
      part between the fixed head and `.pdf`, the split that UrlLayout reads the URL by. */
  function GeneratePdfUrl(d: Date): (url: string)
    requires ValidDate(d)
  {
    BaseUrl + EditionDir + (IntToString(d.year) + "/" + (Pad2(d.month) + "/" + (FilePrefix + FormatDate(d)))) + ".pdf"
  }

  /** Every `c` in s replaced by `with`. */
  function Replace(s: string, c: char, with: char): (r: string)
    ensures |r| == |s|
    ensures forall i :: 0 <= i < |s| ==> r[i] == if s[i] == c then with else s[i]
  {
    if s == [] then [] else [if s[0] == c then with else s[0]] + Replace(s[1..], c, with)
  }

  /** Reads a date token `DD<sep>MM<sep>Y…`; the inverse of FormatDate and FormatDisplayDate. */
  function ParseDateToken(tok: string, sep: char): Option<Date>
  {
    if |tok| < 7 || tok[2] != sep || tok[5] != sep then None
    else match (ParseDigits(tok[..2]), ParseDigits(tok[3..5]), ParseInt(tok[6..]))
      case (Some(dd), Some(mm), Some(yy)) => Some(Date(yy, mm, dd))
      case _ => None
  }

  /** The part of s before the first `c` and the part after it. */
  function SplitAtFirst(s: string, c: char): (r: Option<(string, string)>)
    ensures r.Some? ==> s == r.value.0 + [c] + r.value.1 && c !in r.value.0
    ensures r.None? ==> c !in s
  {
    if s == [] then None
    else if s[0] == c then Some(([], s[1..]))
    else match SplitAtFirst(s[1..], c)
      case None => None
      case Some((a, b)) => Some(([s[0]] + a, b))
  }

  /** Cuts an edition URL into its year directory, month directory and file-name date token. */
  function EditionUrlParts(url: string): Option<(string, string, string)>
  {
    var head := BaseUrl + EditionDir;
    if |url| < |head| + 4 || url[..|head|] != head || url[|url| - 4..] != ".pdf" then None
    else match SplitAtFirst(url[|head|..|url| - 4], '/')
      case None => None
      case Some((yearDir, rest)) =>
        match SplitAtFirst(rest, '/')
        case None => None
        case Some((monthDir, file)) =>
          if |file| < |FilePrefix| || file[..|FilePrefix|] != FilePrefix then None
          else Some((yearDir, monthDir, file[|FilePrefix|..]))
  }

  /** Reads the date back from an edition URL, accepting it only when the year and month
      directories agree with the date in the file name. */
  function ParseEditionUrl(url: string): Option<Date>
  {
    match EditionUrlParts(url)
    case None => None
    case Some((yearDir, monthDir, tok)) =>
      match ParseDateToken(tok, '_')
      case None => None
      case Some(d) =>
        if ParseInt(yearDir) == Some(d.year) && |monthDir| == 2 && ParseDigits(monthDir) == Some(d.month)
        then Some(d) else None
  }

  lemma NoSeparatorInYear(y: int, c: char)
    requires c != '-' && !IsDigit(c)
    ensures c !in IntToString(y)
  {
    var s := IntToString(y);
    assert forall k :: 1 <= k < |s| ==> s[k] == s[1..][k - 1];
  }

  /** Both tokens are the day, the month and the year, in that order, each readable back. */
  lemma FormatDateLayout(d: Date)
    requires ValidDate(d)
    ensures var s := FormatDate(d);
      s[2] == '_' && s[5] == '_' && s[..2] == Pad2(d.day) && s[3..5] == Pad2(d.month) && s[6..] == IntToString(d.year) &&
      ParseDigits(s[..2]) == Some(d.day) && ParseDigits(s[3..5]) == Some(d.month) && ParseInt(s[6..]) == Some(d.year)
    ensures var s := FormatDisplayDate(d);
      s[2] == '.' && s[5] == '.' && s[..2] == Pad2(d.day) && s[3..5] == Pad2(d.month) && s[6..] == IntToString(d.year) &&
      ParseDigits(s[..2]) == Some(d.day) && ParseDigits(s[3..5]) == Some(d.month) && ParseInt(s[6..]) == Some(d.year)
  {
    Pad2RoundTrip(d.day);
    Pad2RoundTrip(d.month);
    ParseIntToString(d.year);
  }

  /** Reading a formatted date gives the date back, so distinct days never share a token. */
  lemma DateTokenRoundTrip(d: Date)
    requires ValidDate(d)
    ensures ParseDateToken(FormatDate(d), '_') == Some(d)
    ensures ParseDateToken(FormatDisplayDate(d), '.') == Some(d)
  {
    FormatDateLayout(d);
  }

  lemma FormatDateInjective(a: Date, b: Date)
    requires ValidDate(a) && ValidDate(b)
    ensures FormatDate(a) == FormatDate(b) <==> a == b
    ensures FormatDisplayDate(a) == FormatDisplayDate(b) <==> a == b
  {
    DateTokenRoundTrip(a);
    DateTokenRoundTrip(b);
  }

  /** The display date is the file-name token with every '_' turned into '.'. */
  lemma DisplayDateIsFileToken(d: Date)
    requires ValidDate(d)
    ensures Replace(FormatDate(d), '_', '.') == FormatDisplayDate(d)
  {
    var s, t := FormatDate(d), FormatDisplayDate(d);
    FormatDateLayout(d);
    Pad2RoundTrip(d.day);
    Pad2RoundTrip(d.month);
    NoSeparatorInYear(d.year, '_');
    var r := Replace(s, '_', '.');
    forall i | 0 <= i < |s|
      ensures r[i] == t[i]
    {
      if 6 <= i {
        assert s[i] == s[6..][i - 6] && t[i] == t[6..][i - 6];
        assert s[i] in IntToString(d.year);
      }
      else if i < 2 { assert s[i] == s[..2][i] && t[i] == t[..2][i]; }
      else if 3 <= i < 5 { assert s[i] == s[3..5][i - 3] && t[i] == t[3..5][i - 3]; }
    }
  }

  lemma {:induction false} SplitAtFirstConcat(a: string, c: char, b: string)
    requires c !in a
    ensures SplitAtFirst(a + [c] + b, c) == Some((a, b))
    decreases |a|
  {
    if a != [] {
      assert (a + [c] + b)[1..] == a[1..] + [c] + b;
      SplitAtFirstConcat(a[1..], c, b);
      assert [a[0]] + a[1..] == a;
    }
  }

  /** The URL cuts into the year, the padded month and the file token, and the month
      directory is the month inside the file token. */
  lemma UrlLayout(d: Date)
    requires ValidDate(d)
    ensures EditionUrlParts(GeneratePdfUrl(d)) == Some((IntToString(d.year), Pad2(d.month), FormatDate(d)))
    ensures Pad2(d.month) == FormatDate(d)[3..5] && IntToString(d.year) == FormatDate(d)[6..]
  {
    var url := GeneratePdfUrl(d);
    var head := BaseUrl + EditionDir;
    var y, mm, tok := IntToString(d.year), Pad2(d.month), FormatDate(d);
    var file := FilePrefix + tok;
    var rest := mm + "/" + file;
    var mid := y + "/" + rest;
    FormatDateLayout(d);
    Pad2RoundTrip(d.month);
    NoSeparatorInYear(d.year, '/');
    assert url == head + mid + ".pdf";
    assert url[..|head|] == head;
    assert url[|url| - 4..] == ".pdf";
    assert url[|head|..|url| - 4] == mid;
    assert '/' !in mm by {
      assert forall k :: 0 <= k < |mm| ==> IsDigit(mm[k]);
    }
    SplitAtFirstConcat(y, '/', rest);
    SplitAtFirstConcat(mm, '/', file);
    assert file[..|FilePrefix|] == FilePrefix && file[|FilePrefix|..] == tok;
  }

  /** The URL names its day unambiguously: reading it back, with the directory check,
      gives the day. */
  lemma EditionUrlRoundTrip(d: Date)
    requires ValidDate(d)
    ensures ParseEditionUrl(GeneratePdfUrl(d)) == Some(d)
  {
    UrlLayout(d);
    DateTokenRoundTrip(d);
    Pad2RoundTrip(d.month);
    ParseIntToString(d.year);
  }

  lemma EditionUrlInjective(a: Date, b: Date)
    requires ValidDate(a) && ValidDate(b)
    ensures GeneratePdfUrl(a) == GeneratePdfUrl(b) <==> a == b
  {
    EditionUrlRoundTrip(a);
    EditionUrlRoundTrip(b);
  }

  /** The resolver's answer, shaped like the `NewspaperResult` record: absent properties
      are None. */
  datatype NewspaperResult = NewspaperResult(
    success: bool,
    pdfUrl: Option<string>,
    error: Option<string>,
    title: Option<string>,
    date: Option<string>)

  /** The record returned when the edition of day d exists. */
  function Hit(d: Date): (r: NewspaperResult)
    requires ValidDate(d)
  {
    var shown := FormatDisplayDate(d);
    NewspaperResult(true, Some(GeneratePdfUrl(d)), None, Some(TitlePrefix + shown), Some(shown))
  }

  /** A success record names one day throughout: its URL and its date both read back as d,
      and its title is the publication name followed by that date. */
  lemma HitDescribesDay(d: Date)
    requires ValidDate(d)
    ensures var r := Hit(d);
      r.success && r.error.None? && r.pdfUrl.Some? && r.date.Some? && r.title.Some? &&
      ParseEditionUrl(r.pdfUrl.value) == Some(d) &&
      ParseDateToken(r.date.value, '.') == Some(d) &&
      r.title.value == TitlePrefix + r.date.value
  {
    EditionUrlRoundTrip(d);
    DateTokenRoundTrip(d);
  }

  /** The record returned when no day in the window has an edition. */
  function Miss(): NewspaperResult
  {
    NewspaperResult(false, None, Some(NotFoundMessage), None, None)
  }

  /** The i-th day tried: i days before today. */
  function Candidate(today: Date, i: nat): Date
    requires ValidDate(today)
  {
    DaysBefore(today, i)
  }

  function CandidateUrl(today: Date, i: nat): string
    requires ValidDate(today)
  {
    GeneratePdfUrl(Candidate(today, i))
  }

  /** Distinct offsets of the window name distinct days, hence distinct URLs: no URL is
      probed twice. */
  lemma CandidateUrlsDistinct(today: Date)
    requires ValidDate(today)
    ensures forall i: nat, j: nat :: i < j ==> CandidateUrl(today, i) != CandidateUrl(today, j)
  {
    forall i: nat, j: nat | i < j
      ensures CandidateUrl(today, i) != CandidateUrl(today, j)
    {
      DaysBeforeDecreasing(today, i, j);
      EditionUrlInjective(DaysBefore(today, i), DaysBefore(today, j));
    }
  }

  /** The URLs of the lookback window, most recent first. */
  function CandidateUrls(today: Date): (urls: seq<string>)
    requires ValidDate(today)
    ensures |urls| == LastOffset + 1
    ensures forall i :: 0 <= i < |urls| ==> urls[i] == CandidateUrl(today, i)
    ensures forall i, j :: 0 <= i < j < |urls| ==> urls[i] != urls[j]
  {
    CandidateUrlsDistinct(today);
    seq(LastOffset + 1, i requires 0 <= i => CandidateUrl(today, i))
  }

  /** Index of the first URL of urls[i..] that the probe confirms, if any. */
  function FirstConfirmed(urls: seq<string>, pdfExists: string -> bool, i: nat): (r: Option<nat>)
    requires i <= |urls|
    ensures r.Some? ==> i <= r.value < |urls| && pdfExists(urls[r.value])
    ensures r.Some? ==> forall j :: i <= j < r.value ==> !pdfExists(urls[j])
    ensures r.None? ==> forall j :: i <= j < |urls| ==> !pdfExists(urls[j])
    decreases |urls| - i
  {
    if i == |urls| then None
    else if pdfExists(urls[i]) then Some(i)
    else FirstConfirmed(urls, pdfExists, i + 1)
  }

  /** What the resolver answers for a given today and a given probe. */
  function LatestEdition(today: Date, pdfExists: string -> bool): NewspaperResult
    requires ValidDate(today)
  {
    match FirstConfirmed(CandidateUrls(today), pdfExists, 0)
    case Some(k) => Hit(Candidate(today, k))
    case None => Miss()
  }

  /** Offset k is the first offset of the window whose URL the probe confirms. */
  predicate IsFirstHit(urls: seq<string>, pdfExists: string -> bool, k: nat)
  {
    k < |urls| && pdfExists(urls[k]) && forall j :: 0 <= j < k ==> !pdfExists(urls[j])
  }

  /** The most recent day whose edition exists wins; with none in the window the answer is
      the fixed failure record. Exactly one of the two cases applies. */
  lemma LatestEditionSpec(today: Date, pdfExists: string -> bool)
    requires ValidDate(today)
    ensures var urls := CandidateUrls(today);
      forall k :: IsFirstHit(urls, pdfExists, k) ==> LatestEdition(today, pdfExists) == Hit(Candidate(today, k))
    ensures var urls := CandidateUrls(today);
      (forall j :: 0 <= j < |urls| ==> !pdfExists(urls[j])) <==> LatestEdition(today, pdfExists) == Miss()
  {
    var urls := CandidateUrls(today);
    var r := FirstConfirmed(urls, pdfExists, 0);
    forall k: nat | IsFirstHit(urls, pdfExists, k)
      ensures LatestEdition(today, pdfExists) == Hit(Candidate(today, k))
    {
      assert r.Some?;
    }
  }

  /** The days tried are today and the seven before it, each exactly one day before the
      previous one. */
  lemma CandidatesStepBack(today: Date, i: nat)
    requires ValidDate(today) && i < LastOffset
    ensures Candidate(today, 0) == today
    ensures Candidate(today, i + 1) == Pred(Candidate(today, i))
    ensures Before(Candidate(today, i + 1), Candidate(today, i))
  {
    DaysBeforeStep(today, i);
  }

  /** Appending the next URL of the window keeps a probe log a prefix of the window. */
  lemma LogExtends(probed: seq<string>, urls: seq<string>, u: string)
    requires |probed| < |urls| && u == urls[|probed|]
    requires forall j :: 0 <= j < |probed| ==> probed[j] == urls[j]
    ensures forall j :: 0 <= j < |probed| + 1 ==> (probed + [u])[j] == urls[j]
  {
  }

  /** An unconfirmed URL is skipped. */
  lemma FirstConfirmedSkip(urls: seq<string>, pdfExists: string -> bool, i: nat)
    requires i < |urls| && !pdfExists(urls[i])
    ensures FirstConfirmed(urls, pdfExists, i) == FirstConfirmed(urls, pdfExists, i + 1)
  {
  }

  /** A scan that has seen only unconfirmed URLs before offset i and finds offset i
      confirmed answers with the edition of offset i. */
  lemma HitAtOffset(today: Date, pdfExists: string -> bool, i: nat)
    requires ValidDate(today) && i <= LastOffset
    requires var urls := CandidateUrls(today);
      FirstConfirmed(urls, pdfExists, 0) == FirstConfirmed(urls, pdfExists, i) && pdfExists(urls[i])
    ensures LatestEdition(today, pdfExists) == Hit(Candidate(today, i))
  {
  }

  /** A scan that has seen the whole window unconfirmed answers with the failure record. */
  lemma MissAfterWindow(today: Date, pdfExists: string -> bool)
    requires ValidDate(today)
    requires var urls := CandidateUrls(today);
      FirstConfirmed(urls, pdfExists, 0) == FirstConfirmed(urls, pdfExists, |urls|)
    ensures LatestEdition(today, pdfExists) == Miss()
  {
  }

  /** `getLatestNewspaperPDF`: probes today, then yesterday, then two to seven days back,
      returning at the first URL the probe confirms. `probed` lists the URLs handed to the
      probe, in order. */
  method GetLatestNewspaperPdf(today: Date, checkPdfExists: string -> bool)
    returns (result: NewspaperResult, probed: seq<string>)
    requires ValidDate(today)
    ensures result == LatestEdition(today, checkPdfExists)
    ensures 1 <= |probed| <= LastOffset + 1
    ensures forall j :: 0 <= j < |probed| ==> probed[j] == CandidateUrls(today)[j]
    ensures forall j :: 0 <= j < |probed| - 1 ==> !checkPdfExists(probed[j])
    ensures result.success <==> checkPdfExists(probed[|probed| - 1])
    ensures result.success ==> result == Hit(Candidate(today, |probed| - 1))
    ensures !result.success ==> result == Miss() && |probed| == LastOffset + 1
  {
    ghost var urls := CandidateUrls(today);
    var todayUrl := GeneratePdfUrl(today);
    assert todayUrl == urls[0];
    LogExtends([], urls, todayUrl);
    probed := [todayUrl];
    if checkPdfExists(todayUrl) {
      HitAtOffset(today, checkPdfExists, 0);
      result := Hit(today);
      return;
    }
    FirstConfirmedSkip(urls, checkPdfExists, 0);

    var yesterday := SetDate(today, today.day - 1);
    SetDateGoesBack(today, 1);
    var yesterdayUrl := GeneratePdfUrl(yesterday);
    assert yesterdayUrl == urls[1];
    LogExtends(probed, urls, yesterdayUrl);
    probed := probed + [yesterdayUrl];
    if checkPdfExists(yesterdayUrl) {
      HitAtOffset(today, checkPdfExists, 1);
      result := Hit(yesterday);
      return;
    }
    FirstConfirmedSkip(urls, checkPdfExists, 1);

    var i := 2;
    while i <= LastOffset
      invariant 2 <= i <= LastOffset + 1
      invariant |probed| == i
      invariant forall j :: 0 <= j < i ==> probed[j] == urls[j]
      invariant forall j :: 0 <= j < i ==> !checkPdfExists(urls[j])
      invariant FirstConfirmed(urls, checkPdfExists, 0) == FirstConfirmed(urls, checkPdfExists, i)
    {
      var pastDate := SetDate(today, today.day - i);
      SetDateGoesBack(today, i);
      var pastUrl := GeneratePdfUrl(pastDate);
      assert pastUrl == urls[i];
      LogExtends(probed, urls, pastUrl);
      probed := probed + [pastUrl];
      if checkPdfExists(pastUrl) {
        HitAtOffset(today, checkPdfExists, i);
        result := Hit(pastDate);
        return;
      }
      FirstConfirmedSkip(urls, checkPdfExists, i);
      i := i + 1;
    }
    MissAfterWindow(today, checkPdfExists);
    result := Miss();
  }
}
