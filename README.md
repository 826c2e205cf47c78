# nomo-heute: edition resolver and PDF page navigation

This project models the two pieces of logic in the "NoMo heute" web app, which shows the
latest issue of the *Norderneyer Morgen* newspaper as a PDF.

- **Edition resolver** (`src/app/actions/newspaper.ts`). It turns a calendar day into the
  publisher's PDF URL `https://www.nomo-norderney.de/media/ausgaben/{year}/{MM}/nomo_{DD_MM_YYYY}.pdf`.
  It then checks today and the seven days before it, most recent first, and returns the
  first edition that exists. If none exists it returns a failure record with the message
  "Keine aktuelle Zeitung gefunden".
- **PDF viewer state** (`src/app/components/PDFViewer.tsx`). The viewer keeps a current
  page, the page count reported by the loader, an error message and a page width. Its
  handlers step the page back and forward within bounds, record the load outcome and
  clamp the width. The buttons' disabled states, the header's visibility and the rendered
  widths are derived from that state.

Files:

- `wrappers.dfy`: the `Option` type, standing for absent (`undefined`) values.
- `decimal.dfy`: JavaScript's `toString()` for integers below 10^21, which covers every day,
  month and `Date` year, and `padStart(2, '0')`, plus a decimal parser that inverts them.
- `calendar.dfy`: civil dates, the day before and the day after, and `setDate` with an
  out-of-range day as a `Date` object normalises it.
- `newspaper.ts` is modelled in `newspaper.dfy`: the two date formatters, the URL builder,
  parsers that read a date back from a token or a URL, the `NewspaperResult` record, the
  specification of the scan (`LatestEdition`) and the scan itself as a method with a loop
  (`GetLatestNewspaperPdf`).
- `PDFViewer.tsx` is modelled in `viewer.dfy`: pure step functions and a `PdfViewer` class
  whose fields are the component's state and whose methods are its handlers.

Modelling choices:

- "Today" is an input, a `Date(year, month, day)` in the caller's local calendar.
- The existence probe `checkPdfExists` is a total function `string -> bool` passed in. The
  source's version returns true only for HTTP status 200 and turns every exception into
  false, so it never fails.
- The resolver method also returns `probed`, the URLs handed to the probe, in order. This
  makes the number and order of the HEAD requests observable.
- Year, month and day are unbounded integers. The JavaScript `Date` range is not a
  constraint here.

The year token is `getFullYear().toString()`, which is not padded. `Decimal.FourDigitYear`
proves that it has four digits exactly for the years 1000 to 9999.

## Model

| member | source | states |
|---|---|---|
| Decimal.NatToString | src/app/actions/newspaper.ts:9-11 | `toString()` of a non-negative number is a non-empty digit string with a leading '0' only for the number 0 |
| Decimal.IntToString | src/app/actions/newspaper.ts:11 | `getFullYear().toString()` is a minus sign for negative years, then digits, with no padding: it starts with '0' only for the year 0, and the digit after a minus sign is never '0' |
| Decimal.ParseIntToString | src/app/actions/newspaper.ts:11 | the unpadded year string reads back as the year, so no two years share a string |
| Decimal.FourDigitYear | src/app/actions/newspaper.ts:11 | the year token is four digits exactly when 1000 <= year <= 9999 |
| Decimal.Pad2RoundTrip | src/app/actions/newspaper.ts:9-10 | `padStart(2, '0')` of a day or month number below 100 gives exactly two digits that read back as that number |
| Decimal.PadStart2 | src/app/actions/newspaper.ts:25 | `padStart(2, '0')`: left-pads with zeros to two characters; its property is carried by Pad2RoundTrip |
| Decimal.Pad2 | src/app/actions/newspaper.ts:9-10 | `n.toString().padStart(2, '0')` for a day or month number; Pad2RoundTrip proves it is two digits that read back as n |
| Calendar.DaysInMonth | src/app/actions/newspaper.ts:45-47 | month lengths are 28 to 31 days, and 29 only for February of a Gregorian leap year |
| Calendar.Pred | src/app/actions/newspaper.ts:45-47 | the day before a valid day is a valid day and lies before it |
| Calendar.PredSuccInverse | src/app/actions/newspaper.ts:45-47 | stepping one day back and one day forward undo each other, across month and year ends |
| Calendar.PredIsImmediate | src/app/actions/newspaper.ts:45-47 | no valid day lies strictly between a day and the day before it |
| Calendar.DaysBeforeStep | src/app/actions/newspaper.ts:76-78 | going i+1 days back is one more day back than going i days back |
| Calendar.DaysBeforeDecreasing | src/app/actions/newspaper.ts:76-78 | going further back always gives a strictly earlier day |
| Calendar.NormalizeDay | src/app/actions/newspaper.ts:47 | `setDate` with a day value outside the month always yields a valid day |
| Calendar.SetDate | src/app/actions/newspaper.ts:47 | `setDate` keeps year and month and normalises the day value (also line 78); `SetDateGoesBack` proves that `setDate(getDate() - i)` is i days back |
| Calendar.SetDateGoesBack | src/app/actions/newspaper.ts:45-47 | `setDate(getDate() - i)` lands exactly i days back, across month ends, year ends and 29 February |
| Newspaper.FormatDate | src/app/actions/newspaper.ts:8-13 | `formatDate`: padded day, '_', padded month, '_', unpadded year; its layout is proved by `FormatDateLayout`, its inverse by `DateTokenRoundTrip` |
| Newspaper.FormatDisplayDate | src/app/actions/newspaper.ts:15-20 | `formatDisplayDate`: the same fields joined by '.'; proved by `FormatDateLayout`, `DateTokenRoundTrip` and `DisplayDateIsFileToken` |
| Newspaper.GeneratePdfUrl | src/app/actions/newspaper.ts:22-27 | `generatePdfUrl`: the edition URL of a day; its layout is proved by `UrlLayout`, its inverse by `EditionUrlRoundTrip` |
| Newspaper.FormatDateLayout | src/app/actions/newspaper.ts:8-20 | `DD_MM_YYYY` and `DD.MM.YYYY` hold the padded day, then the padded month, then the year, at fixed positions, each reading back as its component |
| Newspaper.DateTokenRoundTrip | src/app/actions/newspaper.ts:8-20 | reading either date token back gives the day it was formatted from |
| Newspaper.FormatDateInjective | src/app/actions/newspaper.ts:8-20 | two days have the same file-name token, or the same display date, only if they are the same day |
| Newspaper.DisplayDateIsFileToken | src/app/actions/newspaper.ts:8-20 | the display date is the file-name token with every '_' replaced by '.' |
| Newspaper.UrlLayout | src/app/actions/newspaper.ts:22-27 | the URL is the base, `/media/ausgaben/`, the year directory, the `MM` directory, `nomo_`, the file-name token and `.pdf`, and its year and month directories equal the year and month inside the token |
| Newspaper.EditionUrlRoundTrip | src/app/actions/newspaper.ts:22-27 | the day read back from a URL, after checking the directories against the file name, is the day the URL was built from |
| Newspaper.EditionUrlInjective | src/app/actions/newspaper.ts:22-27 | distinct days have distinct URLs |
| Newspaper.Hit | src/app/actions/newspaper.ts:54-59 | the success record built at each of the three hit sites (also lines 67-72 and 84-89); its fields are proved by `HitDescribesDay` |
| Newspaper.HitDescribesDay | src/app/actions/newspaper.ts:53-59 | a success record has no error, its URL and its date both name the found day, and its title is "Norderneyer Morgen - " followed by the date |
| Newspaper.CandidatesStepBack | src/app/actions/newspaper.ts:45-47 | the first day tried is today, and each later day is exactly one day before the previous one and strictly earlier |
| Newspaper.CandidateUrls | src/app/actions/newspaper.ts:76-79 | the window has eight URLs and no two of them are equal, so no URL is probed twice (`CandidateUrlsDistinct`) |
| Newspaper.CandidateUrlsDistinct | src/app/actions/newspaper.ts:45-47 | different offsets of the window give different URLs, because they are different days |
| Newspaper.FirstConfirmed | src/app/actions/newspaper.ts:49-91 | the scan stops at the first confirmed URL: every URL before it is unconfirmed; if it finds none, every URL is unconfirmed |
| Newspaper.LatestEditionSpec | src/app/actions/newspaper.ts:43-102 | if offset k is the first confirmed one, the answer is the edition of the day k days back; the answer is the failure record exactly when all eight probes fail |
| Newspaper.FirstConfirmedSkip | src/app/actions/newspaper.ts:76-91 | proof step for the loop of GetLatestNewspaperPdf: an unconfirmed URL is passed over and the scan goes on with the next offset |
| Newspaper.HitAtOffset | src/app/actions/newspaper.ts:83-89 | proof step for the loop of GetLatestNewspaperPdf: a confirmed URL at offset i, with all before it unconfirmed, yields the edition of the day i days back |
| Newspaper.MissAfterWindow | src/app/actions/newspaper.ts:93-101 | proof step for the loop of GetLatestNewspaperPdf: eight unconfirmed URLs yield the failure record |
| Newspaper.Miss | src/app/actions/newspaper.ts:93-101 | the failure record (no URL, the fixed German message); MissAfterWindow and LatestEditionSpec prove it is the answer exactly when all eight probes fail |
| Newspaper.GetLatestNewspaperPdf | src/app/actions/newspaper.ts:43-102 | the method's answer is `LatestEdition`; it probes the window's URLs in order from today, one to eight of them; all but the last probed were unconfirmed; it succeeds exactly when the last probe confirmed, with that day's record; on failure it has probed all eight and returns "Keine aktuelle Zeitung gefunden" |
| Viewer.LastPage | src/app/components/PDFViewer.tsx:40 | the last page is the page count when that is at least 1, and 1 while the count is unknown or 0 |
| Viewer.PrevPage | src/app/components/PDFViewer.tsx:36 | the updater of `goToPrevPage`; its behaviour is proved by `PrevPageSpec` |
| Viewer.NextPage | src/app/components/PDFViewer.tsx:40 | the updater of `goToNextPage`; its behaviour is proved by `NextPageSpec` |
| Viewer.PrevPageSpec | src/app/components/PDFViewer.tsx:35-37 | going back stays at or above page 1, moves back exactly one page from a later page, and does nothing on page 1 |
| Viewer.NextPageSpec | src/app/components/PDFViewer.tsx:39-41 | going forward stays at or below the last page, moves forward exactly one page before the last page, and does nothing on it |
| Viewer.NextUndoesPrev | src/app/components/PDFViewer.tsx:35-41 | for 1 < p <= last page, back then forward returns to p |
| Viewer.PrevUndoesNext | src/app/components/PDFViewer.tsx:35-41 | for 1 <= p < last page, forward then back returns to p |
| Viewer.PrevDisabled | src/app/components/PDFViewer.tsx:74 | the Back button's disabled state (also line 100); `DisabledMeansNoChange` proves it holds exactly when going back would not change the page |
| Viewer.NextDisabled | src/app/components/PDFViewer.tsx:88 | the Next button's disabled state (also line 114); `DisabledMeansNoChange` proves it holds exactly when going forward would not change the page |
| Viewer.HeaderVisible | src/app/components/PDFViewer.tsx:68 | the header with both buttons is rendered only for more than one page; it is the precondition of `DisabledMeansNoChange` |
| Viewer.DisabledMeansNoChange | src/app/components/PDFViewer.tsx:68-114 | while the header is shown, the Back button is disabled exactly when going back would not change the page, and the Next button exactly when going forward would not |
| Viewer.NavigateStaysInRange | src/app/components/PDFViewer.tsx:18-41 | from a page between 1 and the last page, every sequence of Back and Next presses stays between them |
| Viewer.ClampedPageWidth | src/app/components/PDFViewer.tsx:44-46 | the width set on resize is the window width minus 16, capped at 1200 |
| Viewer.DesktopPageWidth | src/app/components/PDFViewer.tsx:145 | the wide-screen page width is the page width capped at 900 |
| Viewer.MobilePageWidth | src/app/components/PDFViewer.tsx:176 | the narrow-screen page width is the page width raised to at least 600 |
| Viewer.PdfViewer.constructor | src/app/components/PDFViewer.tsx:17-21 | the viewer starts on page 1, with no page count, no error, loading, and width 800 |
| Viewer.PdfViewer.OnDocumentLoadSuccess | src/app/components/PDFViewer.tsx:23-27 | loading stores the page count, clears the error and the loading flag, and leaves the page unchanged; the page stays a page of the document exactly when it is within the new count |
| Viewer.PdfViewer.OnDocumentLoadError | src/app/components/PDFViewer.tsx:29-33 | a load failure sets the fixed, non-empty error message and clears the loading flag, changing nothing else |
| Viewer.PdfViewer.ShowsError | src/app/components/PDFViewer.tsx:55 | the error view is shown when the error string is non-empty; OnDocumentLoadError ensures it holds after a load failure |
| Viewer.PdfViewer.GoToPrevPage | src/app/components/PDFViewer.tsx:35-37 | the page becomes `max(1, page - 1)`, stays at least 1, and stays a page of the document |
| Viewer.PdfViewer.GoToNextPage | src/app/components/PDFViewer.tsx:39-41 | the page becomes the smaller of the last page and page + 1 and is afterwards a page of the document |
| Viewer.PdfViewer.UpdatePageWidth | src/app/components/PDFViewer.tsx:44-46 | the page width becomes `min(innerWidth - 16, 1200)` and never exceeds 1200 |
| Viewer.PdfViewer.DesktopWidth | src/app/components/PDFViewer.tsx:145 | the wide-screen page is never wider than 900 |
| Viewer.PdfViewer.MobileWidth | src/app/components/PDFViewer.tsx:176 | the narrow-screen page is between 600 and 1200 wide |

## Left out

- The HEAD request in `checkPdfExists` (src/app/actions/newspaper.ts:29-41) is left out: axios, the 5-second timeout and the User-Agent header. It is network I/O and is replaced by the probe parameter.
- The `console.log` and `console.error` calls are left out. They only log.
- Local time zones and daylight-saving time in JavaScript `Date` are left out. Days are modelled as calendar triples.
- The `Date` object's year range (about ±275,760 years) is not modelled.
- The catch branch's fallback message "Fehler beim Laden der Zeitung" (src/app/actions/newspaper.ts:100) is not modelled. In the model nothing but the explicit "not found" error can be raised, so it is unreachable.
- The `loading` field of the viewer is kept, but nothing reads it, as in the source.
- Rendering is left out: JSX, CSS classes, the react-pdf `Document` and `Page` components, the worker setup and the registration of the resize listener. Only the state updates and the derived values are modelled.
- `src/app/page.tsx` is not part of this model. It is glue around the asynchronous call and `encodeURIComponent`.
- `src/app/components/ErrorPage.tsx` is not part of this model. It is presentation plus a page reload.
- Idempotence of the resolver needs no lemma: Dafny functions are deterministic.
