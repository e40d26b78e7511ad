# Verified model of the letter preview service

This project models the parts of the service where letters can be rejected, lost or mixed up, and proves what
each part is for.

- **Printable areas** (`AddressWindow`, `Canvas`, `Overlays`, `PixelCheck`). A caller sends the window a letter's
  address must sit in. From it come two drawings: white over everything that may be printed, used to validate, and
  red over everything that may not, shown to users. A page is valid if nothing but near-white is left after the
  white is painted. Lengths are exact reals in millimetres; a canvas stores rectangles in points from the bottom
  left, and a pair of corners in the wrong order is turned inside out as in the code.
- **Text and fonts** (`TextExtraction`, `NotifyTagScan`, `EmbeddedFonts`). Word extraction by filter, sort and
  grouping; the scan that prunes by bounding box; the font walk over PDF objects (ISO 32000-1, sections 7.3.10, 9.8
  and 9.9), which has no visited set.
- **Letters in S3** (`Storage`, `CallHistory`, `LetterPartsProtocol`, `LetterPartsReporting`, `RepeatedNames`,
  `LetterOutcomes`, `LetterParts`, `SingleLetter`, `TemplatedLetterProtocol`, `TemplatedLetterOutcomes`,
  `TemplatedLetterMessages`, `TemplatedLetter`, `BackupKeys`, `PdfStitching`, `Verdicts`). Each Celery task is a process that makes one call to S3 or the queue per step. A call that raises may
  or may not have taken effect. Any number of deliveries of a task overlap; the invariants hold in every state of
  every such run. The tasks themselves are methods that return their own history as a run of these steps, one step
  for every call, so the results apply to them.
- **The sanitise pipeline and the cache** (`Sanitise`, `ResultCache`). Streams have cursors that the PDF libraries
  leave anywhere; the pipeline is proved equal to one without cursors, and that one to a list of stages each of which
  is asked by itself. The result cache is one bucket shared by workers that each have a cache of their own.

Each `...Protocol` module and each specification function is the reference that the methods are proved against;
`Options` and `Sequences` hold what several modules share.

## What the proofs found

- Red and white agree for every window the parser accepts, inside out or not. The white area of a provider's window
  is exactly what its docstring promises if and only if the address fills whatever part of the postage area sticks
  out of the border. The parser does not ensure this (`Overlays.PageBoundsDoNotMakeWhiteExact`).
- A comment at app/address_window_nl.py:83 says that no comparison would reject NaN and Infinity. Without a NaN in
  the area the comparisons reject every infinity; the finiteness check matters exactly for areas with a NaN in which
  no number that can be compared is out of range.
- The parser raises something other than InvalidRequest if and only if json.loads does, or the first thing wrong with a
  complete window is an integer in an area that is too large for a float.
- The logo area reaches to the service address at 125 mm, not only as far as the address extends, as the comment at
  app/precompiled.py:904 has it. The model follows the code.
- The paths that the font walk takes are bounded exactly for resources free of cycles. The cycle between pages and the
  page tree, which every file has, does not matter.
- No part of a multi-part letter and no raw attachment is ever lost. A templated letter whose
  attachments were all there never ends without an outcome. A multi-part letter can: from any state some delivery has
  sent or can still send its message if and only if no two siblings have one name and either all parts are in the
  scan bucket or a delivery under way finds there all that it still has to read. So a delivery that stops between the
  first removal of a sibling and its message leaves that letter without an outcome for good, unless there is such a
  delivery.
- The multi-part task does not check for repeated filenames. Two siblings with one name mean that no delivery ever
  sends a message. Part 0 is taken out of the scan bucket if and only if its name comes up again before another
  sibling's name is repeated; for up to three parts, if and only if it is repeated at all. No bytes are lost either
  way.
- A templated letter's announced page count is that of the stored letter in every run if and only if the page count does
  not depend on which of the sanitiser's answers went into it, because an overlapping delivery may store its own
  version before the first one announces.
- Text that encroaches on the NOTIFY tag never changes a verdict, as documented, but an exception raised while
  looking for it does.
- The multi-part task on one filename is the single-file task if and only if sanitising keeps the page count, because
  one announces the sanitiser's count and the other counts again.

## Model

| member | source | states |
|---|---|---|
| AddressWindow.ParsedWindowIsWellFormed | app/address_window_nl.py:53-90 | Whatever a caller sends, a window that is built from it lies on the page with positive size and its postage area contains its address area; only an already built window is taken on trust. |
| AddressWindow.ParseIff | app/address_window_nl.py:53-90 | For every input and window: the parser gives that window if and only if the input describes it, number by number as floats, integers, booleans or text within 210 by 297 mm, and none if and only if the input is empty in Python's sense. |
| AddressWindow.ParseAcceptsExactlyWellFormedWindows | app/address_window_nl.py:53-90 | Round trip: a window sent as JSON comes back unchanged exactly when it is well formed, and is refused otherwise. |
| AddressWindow.FinitenessCheckMattersExactlyForNaN | app/address_window_nl.py:81-90 | The finiteness check refuses what the comparisons would let through exactly for areas with a NaN in which no number that can be compared is out of range; without a NaN the comparisons alone give the verdict. |
| AddressWindow.CrashIff | app/address_window_nl.py:53-82 | For every input: an exception other than the parser's own gets out if and only if json.loads raises one, or an integer too large for a float is the first thing wrong, with the numbers read in order and the address area before the postage area, in a window that has all its keys. |
| AddressWindow.OversizedIntegerCrashes | app/address_window_nl.py:63-82 | For example in the place of any window's left edge, if and only if it overflows. |
| Canvas.NotifyCanvas.Rect | app/precompiled.py:226-247 | Whatever the order of the corners, the rectangle appended in points from the bottom left covers exactly the page positions between them and has no negative size. |
| Overlays.OverlayPrintableAreasWithWhite | app/precompiled.py:804-863 | One white drawing for every page in order: the address page's areas for a letter's first page and the plain frame for all others and for attachments. |
| Overlays.OverlayAddressPageWithWhite | app/precompiled.py:866-917 | The drawing covers, rectangle by rectangle, the areas of the window in use, the caller's or the standard one for the placement. |
| Overlays.OverlayAroundPostageAreaWithWhite | app/precompiled.py:920-939 | The drawing covers the four strips around the postage area and the address. |
| Overlays.ColourNoPrintAreasInRed | app/precompiled.py:974-1052 | The drawing covers the margins and, on a first page, what the window forbids around the address. |
| Overlays.WhiteIff | app/precompiled.py:804-939 | The white drawing in millimetres, position by position: 4 to 206 by 4 to 293 on later pages and attachments, and on a first page what the caller's window, or without one the placement, leaves open. |
| Overlays.RedIff | app/precompiled.py:974-1052 | The red drawing in millimetres, position by position: five millimetres along the edges, and on a first page what is forbidden around the address or inside the postage area. |
| Overlays.OffRedIsWhite | app/precompiled.py:866-1037 | For every window the parser can return and both kinds of page, a page position that no closed red rectangle touches lies under a white one. |
| Overlays.WhiteAroundPostageIsExactIff | app/precompiled.py:920-939 | The white region is the frame less the inside of the postage area plus the address, if and only if the address fills whatever part of the postage area sticks out of the frame. |
| Overlays.WhiteIsExactInsideFrame | app/precompiled.py:920-939 | In particular for every postage area within 4 to 206 mm by 4 to 293 mm. |
| Overlays.RedAroundPostageIsExact | app/precompiled.py:987-1017 | For a provider's window the red covers exactly the margins and the postage area less the inside of the address. |
| Overlays.PageBoundsDoNotMakeWhiteExact | app/address_window_nl.py:75-90 | The parser accepts a window for which the white region is not what is promised. |
| Overlays.RedAndPrintableCoverThePage | app/precompiled.py:879-912 | For every postage-free window each page position is red or in an area published as printable. |
| Overlays.RedAndPrintableAreDisjointIff | app/precompiled.py:987-1037 | Red and published areas have disjoint interiors if and only if the address lies inside the border, left of the service address if it starts above the body, and spans the logo width if it starts below that. |
| Overlays.RedIsDrawnOnce | app/precompiled.py:987-1037 | For such a window no two red rectangles overlap. |
| Overlays.StandardWindowsTileCleanly | app/precompiled.py:166-178 | Both standard windows, and whatever an unrecognised placement gives, are such windows. |
| Overlays.WhiteIsWithin1mmOfPrintable | app/precompiled.py:818-821 | Every white position is within one millimetre along each axis of a published area, for every postage-free window. |
| Overlays.WhiteReaches1mmAroundPrintable | app/precompiled.py:818-821 | For a window that starts below the top border the white region is exactly the published areas and one millimetre around them. |
| PixelCheck.PagesWithContentOutsidePrintableArea | app/precompiled.py:804-863 | After merging the drawings into all pages, in increasing order and once each, exactly the pages are reported that had a pixel with some channel under 252 centred where that page may not be printed; for later pages and attachments that is outside 4 to 206 by 4 to 293 mm. |
| PixelCheck.OutOfBoundsPages | app/precompiled.py:1059-1084 | Exactly the pages with some pixel that is not near white, including the branch for too many colours. |
| PixelCheck.CleanPageHasFewColours | app/precompiled.py:1070-1077 | Near-white pixels have at most 64 colours, under the 256 at which the colour list is withheld. |
| PixelCheck.MergeWhite | app/precompiled.py:849-857 | Merging a drawing turns exactly the pixels white whose centre one of its rectangles, in points, covers. |
| PixelCheck.ContentOffRedIsAccepted | app/precompiled.py:987-1052 | A page whose visible pixels keep off the red is not reported. |
| TextExtraction.ExtractTextFromPage | app/precompiled.py:1132-1184 | The loops give the text by line, and the alternative text by lower edge, of the sorted words that meet the rectangle. |
| TextExtraction.MeetsIff | app/precompiled.py:1147-1148 | A word is kept if and only if its box and the rectangle share a point inside both; touching is not enough. |
| TextExtraction.SortIsSortedPermutation | app/precompiled.py:1153 | Sorting orders by block, then line, then word number, and neither drops nor duplicates a word. |
| TextExtraction.SortIsStable | app/precompiled.py:1153 | Words with equal triples keep their order. |
| TextExtraction.SortedSelectionIsStrict | app/precompiled.py:1147-1153 | With distinct triples each word that meets the rectangle appears exactly once, in strict order. |
| TextExtraction.ExtractionIsCanonical | app/precompiled.py:1147-1158 | With distinct triples the text depends only on the set of words that meet the rectangle. |
| TextExtraction.RunsCutTheList | app/precompiled.py:1154-1157 | Grouping cuts the list into runs of one key, neighbours having different keys, and loses nothing. |
| TextExtraction.OneLinePerKey | app/precompiled.py:1153-1158 | One line of text for every distinct block and line, in that order, holding every selected word of that block and line by rising word number. |
| TextExtraction.SplittingRecoversGroups | app/precompiled.py:1154-1158 | Splitting the text on newlines and then spaces gives the groups back, word by word. |
| TextExtraction.ByLineEqualsByY2Iff | app/precompiled.py:1153-1180 | The texts by line and by lower edge are equal if and only if, from each word to the next, block or line changes exactly when the lower edge does. |
| NotifyTagScan.CheckNotifyTagArea | app/precompiled.py:643-695 | The nested loops report the first encroaching span among those they reach, and on a properly nested page the first of all. |
| NotifyTagScan.TagIsClearIff | app/precompiled.py:616-695 | On a properly nested page nothing is reported if and only if no span with text other than NOTIFY comes below 15.191 mm from the left and 6.149 mm from the top; what is reported is such a span's text. |
| NotifyTagScan.FlatScanFindsFirst | app/precompiled.py:643-695 | The flat scan finds the first span that meets the tag and is neither empty nor the tag, and nothing exactly when there is none. |
| NotifyTagScan.PrunedScanEqualsFlatScan | app/precompiled.py:668-695 | If every box contains its children's, pruning changes nothing. |
| NotifyTagScan.UnnestedSpanIsMissed | app/precompiled.py:668-680 | Without nesting a span that meets the tag can be missed. |
| EmbeddedFonts.FontSets.Walk | app/embedded_fonts.py:18-52 | Under an object free of cycles the walk ends, adds to the two sets exactly the fonts used and embedded somewhere under the object, in any key order, and fails exactly when something under it makes Python raise. |
| EmbeddedFonts.ContainsUnembeddedFonts | app/embedded_fonts.py:54-65 | The answer is the base fonts reachable from some page's resources less the embedded ones, or a failure exactly when some page fails. |
| EmbeddedFonts.AnswerIff | app/embedded_fonts.py:27-65 | A font is in the answer if and only if some dictionary reachable from some page's resources has it as /BaseFont, and none has it as /FontName beside /FontFile, /FontFile2 or /FontFile3. |
| EmbeddedFonts.NoAnswerIff | app/embedded_fonts.py:27-65 | There is no answer if and only if a page lacks resources or something reachable is a name that no set can hold or a subtype that cannot be searched. |
| EmbeddedFonts.AnswerIsIndependentOfPageOrder | app/embedded_fonts.py:57-61 | The answer depends only on which pages there are. |
| EmbeddedFonts.PathsBoundedIffAcyclic | app/embedded_fonts.py:46-52 | For every heap and object: the paths that a walk without a visited set takes have bounded length if and only if nothing reachable from the object leads back to itself. |
| EmbeddedFonts.AcyclicIffRanked | app/embedded_fonts.py:46-52 | An object is free of cycles if and only if what it refers to can be ranked so that every reference leads down, whatever the rest of the file is like. |
| EmbeddedFonts.PageTreeMayBeCyclic | app/embedded_fonts.py:57-59 | In every file with a page and its tree both lead back to themselves, and any resources are free of cycles if and only if they can be ranked without those two. |
| PdfStitching.MergeLetterParts | app/utils.py:25-33 | The result has every page of every part in submission order, and their total number. |
| PdfStitching.PageLandsInOrder | app/utils.py:25-33 | Each page lands after all pages of the documents before its own. |
| BackupKeys.BackupKeysAreDistinct | app/celery/tasks.py:184-234 | "id.pdf", "id.part2.pdf" and so on are different for different parts. |
| BackupKeys.DecimalDenotes | app/celery/tasks.py:227-233 | The part number in a key is the decimal numeral without leading zeros that denotes it. |
| LetterPartsProtocol.NoPartIsLost | app/celery/tasks.py:106-251 | In every state of every run, each sibling's bytes are in the scan bucket, its own backup or the invalid bucket; part 0 and unrelated objects never change in the scan bucket. |
| LetterPartsProtocol.PassedMeansComplete | app/celery/tasks.py:170-219 | From the moment a "passed" message is sent: a merged letter of passing parts within the page limit is stored under part 0's name, every original is backed up under its own key, no sibling is left in the scan bucket, and the message has part 0's address and the page count, ten at most, of passing parts. |
| LetterPartsProtocol.AnnouncedPageCountIsStored | app/celery/tasks.py:159-190 | With a deterministic sanitiser the announced page count is that of the stored letter. |
| LetterPartsProtocol.FailedMessageIsJustified | app/celery/tasks.py:152-219 | A "failed" message has the message, page count and invalid pages that the sanitiser gave for the first refused part, or "letter-too-long" and the total of parts that all pass and have more than ten pages together; it has part 0's address unless part 0 was refused; all siblings have left the scan bucket before. |
| LetterPartsProtocol.LateDeliveriesAreSilent | app/celery/tasks.py:134-251 | Once any part is missing from the scan bucket, a delivery that starts later never sends a message. |
| LetterPartsReporting.LaterDeliveryCanReportIff | app/celery/tasks.py:106-251 | From every state of every run: some later delivery can still send the message if and only if all parts are in the scan bucket and no two siblings have one name, given that the sanitiser answers. |
| LetterOutcomes.MessageIsPossibleIff | app/celery/tasks.py:106-251 | After every run: a message has been sent or some delivery, under way or later, can still send one, if and only if no two siblings have one name and either all parts are in the scan bucket or some delivery under way finds there all that it still has to read. |
| LetterOutcomes.LetterCanBeStranded | app/celery/tasks.py:170-251 | For every letter of two or more distinct parts there is a run after which that is not so. |
| LetterPartsProtocol.RedeliveryAfterMessageIsSilent | app/celery/tasks.py:106-219 | With two or more parts, a delivery that starts after a message was sent stays silent. |
| RepeatedNames.PartZeroStaysIff | app/celery/tasks.py:126-251 | Part 0 stays in the scan bucket in every run if and only if its name does not come up again among the siblings before another sibling's name is repeated, given that some file may be refused. |
| RepeatedNames.UpToThreePartsIff | app/celery/tasks.py:115-127 | For up to three parts that is: if and only if part 0's name is not repeated. |
| RepeatedNames.EarlierRepeatShieldsPartZero | app/celery/tasks.py:222-251 | For four it is not: in [a, b, b, a] part 0 always stays. |
| RepeatedNames.RepeatedSiblingIsNeverReported | app/celery/tasks.py:222-251 | With one name for two siblings no delivery ever sends a message, and the second is never backed up under its own key. |
| RepeatedNames.NoBytesAreLost | app/celery/tasks.py:106-251 | Whatever the names are, every object is in the scan bucket, under the backup key of a sibling of that name, or in the invalid bucket. |
| LetterPartsProtocol.SystemStepKeepsInvariant | app/celery/tasks.py:106-251 | Every step of every delivery keeps the whole invariant, whatever the other deliveries are doing. |
| LetterParts.SanitiseAndMergeLetterParts | app/celery/tasks.py:106-219 | One delivery is a run of the protocol with one step for every call; at most one call raises, which is then the last; the message is on the queue unless one did, and after a failed S3 call it is not. |
| LetterParts.BackupLetterPartScanObjects | app/celery/tasks.py:222-234 | Each sibling is copied to its own backup key and then deleted, in order, up to the first failed call. |
| LetterParts.CleanupLetterPartScanObjects | app/celery/tasks.py:237-251 | Each sibling is copied to the invalid bucket and then deleted, in order, up to the first failed call. |
| LetterParts.DeliverRepeatedly | app/celery/tasks.py:106-251 | Any number of deliveries one after another: at every state S3 goes through nothing is lost, and with two or more parts at most one message is sent in all. |
| SingleLetter.SanitiseAndUploadLetter | app/celery/tasks.py:26-103 | One delivery of the single-file task is a run of its own steps with one step for every call; at most one call raises, which is then the last; the message is on the queue unless one did, and after a failed S3 call it is not. |
| SingleLetter.SingleMessageIsTrue | app/celery/tasks.py:39-103 | A sent message has the message, page count and invalid pages of the sanitiser's refusal, or its page count and address with the sanitised file stored under the file's name and the original backed up; the scan bucket is never touched. |
| SingleLetter.OnePartRefinesSingleLetterIff | app/celery/tasks.py:39-213 | On one filename the multi-part task makes the same steps with the same effects, failures and payload as the single-file task, if and only if successful sanitising keeps the page count within the limit. |
| TemplatedLetterProtocol.TemplatedPagesInOrder | app/templated.py:9-49 | Welsh then English, or English alone; then the fixed attachment; then the ad-hoc attachments in key order; the page count is the sum. |
| TemplatedLetterProtocol.NoAttachmentIsDropped | app/celery/tasks.py:315-425 | In every state of every run each raw attachment is in the scan bucket, in the invalid bucket, or inside a stored letter as its sanitised pages; nothing else leaves the scan bucket. |
| TemplatedLetterProtocol.OneOutcomeBeforeRemoval | app/celery/tasks.py:331-392 | Each delivery sends at most one outcome, and no attachment is removed before some outcome is sent. |
| TemplatedLetterProtocol.RemovalFollowsOwnOutcome | app/celery/tasks.py:331-392 | Only a delivery that has sent its own one outcome removes an attachment. |
| TemplatedLetterProtocol.RedeliveryAfterRemovalIsSilent | app/celery/tasks.py:323-425 | Once any attachment has been removed, a delivery that starts later sends nothing. |
| TemplatedLetterOutcomes.LaterDeliveryCanSendIff | app/celery/tasks.py:315-425 | For a letter whose attachments were all there: a later delivery can send an outcome if and only if no attachment has been removed. |
| TemplatedLetterOutcomes.TemplatedLetterIsNeverStranded | app/celery/tasks.py:315-425 | So after every run some outcome has been sent or a later delivery can still send one. |
| TemplatedLetterMessages.SentOutcomeIsTrue | app/celery/tasks.py:323-389 | Billable units are announced only with the page count, ten at most, of a letter with all attachments, and such a letter is stored in the test or the live bucket; a failed validation only with the page count of the first refused attachment, or with that of a letter of more than ten pages, and then such a letter is among the invalid files. |
| TemplatedLetterMessages.AnnouncedIsStoredIff | app/celery/tasks.py:346-389 | The announced page count is that of the stored letter in every run if and only if page counts of letters within the limit do not depend on the sanitiser's answers. |
| TemplatedLetterMessages.FinishedHasCleanedUp | app/celery/tasks.py:331-425 | When a delivery has come to its end it has sent one outcome and no raw attachment is left in the scan bucket. |
| TemplatedLetterProtocol.SystemStepKeepsInvariant | app/celery/tasks.py:315-425 | Every step of every delivery keeps the whole invariant. |
| TemplatedLetter.CreatePdfForTemplatedLetter | app/celery/tasks.py:315-392 | One delivery is a run of the protocol with one step for every call; it comes to its end if and only if no call raises, and the first call that raises is its last, also when that is a send that took effect. |
| TemplatedLetter.GenerateTemplatedPdf | app/templated.py:9-49 | The document is the one described by TemplatedPages, or the first refusal or failure is passed on. |
| TemplatedLetter.RemoveFolderIs | app/celery/tasks.py:437-442 | What is left of a name is what stands between its first slash and the next one, or all of it without a slash. |
| TemplatedLetter.GetAdhocAttachmentPdfs | app/letter_attachments.py:33-63 | The sanitised attachments in key order; the first refusal or failed download ends it and nothing later is downloaded. |
| TemplatedLetter.AddAttachmentsToLetter | app/letter_attachments.py:66-79 | The letter, then the fixed attachment if there is one, then the ad-hoc ones. |
| TemplatedLetter.DeliverRepeatedly | app/celery/tasks.py:315-425 | Any number of deliveries one after another drop no attachment at any state S3 goes through. |
| Sanitise.SanitiseFileContents | app/precompiled.py:350-457 | The code with cursors gives what the cursor-free pipeline gives, so a returned file is the whole final document. |
| Sanitise.NormaliseFontsAndColours | app/precompiled.py:493-511 | The stream that comes out is rewound and holds the converted document, wherever the cursor was. |
| Sanitise.NormaliseIff | app/precompiled.py:493-511 | Colours are converted unless there is CMYK and no RGB, fonts are embedded only if some are not, and otherwise the document stays as it is. |
| Sanitise.TaggedIff | app/precompiled.py:481-490 | The tag is added after that, and only if there is none. |
| Sanitise.RewriteAddressBlock | app/precompiled.py:1088-1113 | The address verdict over the whole document; the stream is rewound after success. |
| Sanitise.EitherMessageOrFile | app/precompiled.py:418-457 | Exactly one of message and file is set, and a file comes with a page count within the limit. |
| Sanitise.FirstProblemDecides | app/precompiled.py:366-457 | The answer, with message, pages and page count, is that of the first of the stages, each asked by itself, to find anything. |
| Sanitise.MessageIff | app/precompiled.py:366-457 | Each of the sixteen messages, "unable-to-read-the-file" included, is given if and only if the first stage to find anything finds that. |
| Sanitise.TooLongIff | app/precompiled.py:372-375 | "letter-too-long" if and only if the file can be read and has too many pages. |
| Sanitise.NotA4PortraitIff | app/precompiled.py:377-384 | "letter-not-a4-portrait-oriented" if and only if the file is short enough and has such pages, which are the ones named. |
| Sanitise.OutsidePrintableAreaIff | app/precompiled.py:737-749 | "content-outside-printable-area" if and only if all earlier checks pass and the overlaid pages still show something; those pages are named. |
| Sanitise.TagInContentIff | app/precompiled.py:751-760 | "notify-tag-found-in-content" if and only if all earlier checks pass and the overlaid pages contain the tag; those pages are named. |
| Sanitise.AddressLinesMessagesIff | app/precompiled.py:250-260 | "address-is-empty", "not-enough-address-lines" and "too-many-address-lines", each if and only if the address in the letter's own window is judged and has that fault and none before it, and for the first two every other window holds an invalid address. |
| Sanitise.AddressTextMessagesIff | app/precompiled.py:262-266 | The same for "invalid-address-line-1-or-2" and "has-country-for-bfpo-address". |
| Sanitise.AddressLastLineMessagesIff | app/precompiled.py:268-275 | The same for "not-a-real-uk-postcode-or-country", "cant-send-international-letters" and "not-a-real-uk-postcode", by whether international letters are allowed and the address is international. |
| Sanitise.AddressContentMessagesIff | app/precompiled.py:277-281 | The same for "invalid-char-in-address" and "no-fixed-abode-address". |
| Sanitise.AddressMessageIff | app/precompiled.py:1088-1108 | Every address code comes with page 1 and only for a letter whose earlier stages pass. |
| Sanitise.SearchedAreaIff | app/precompiled.py:185-191 | Text is taken from three millimetres around the address area, or from exactly it if there is a postage area. |
| Sanitise.WindowInUse | app/precompiled.py:366-384 | All stages use the caller's window, or the placement's without one; a window that cannot be read makes the answer "unable-to-read-the-file". |
| Sanitise.FileIffEveryStagePasses | app/precompiled.py:366-424 | A file is returned if and only if every stage by itself finds nothing; it is the converted document, for a letter the tagged one with the address of its own window. |
| Sanitise.EncroachmentNeverChangesTheVerdict | app/precompiled.py:399-412 | What text is found on the tag makes no difference to the result. |
| Sanitise.EncroachmentCheckRefusesExactlyWhenItRaises | app/precompiled.py:399-457 | A letter that passes every stage before it is refused exactly when that check raises. |
| Sanitise.ReturnedFileIsReadyToPrint | app/precompiled.py:460-511 | If the conversions do what they are for, every returned file, on whichever path, has no RGB and no unembedded font, and a letter carries the NOTIFY tag. |
| Sanitise.AllowingInternationalMattersIff | app/precompiled.py:250-281 | Allowing international letters changes whether a letter is accepted if and only if its address is right apart from a last line that is valid under one setting only, and every other stage passes. |
| Sanitise.MismatchIff | app/precompiled.py:1095-1108 | The address check reports a placement mismatch exactly when the own window gives an empty or too short address and the first candidate window that is not merely invalid gives a fully valid one. |
| Sanitise.MismatchMessageIff | app/precompiled.py:1088-1108 | And "address-placement-mismatch", with page 1, is the answer exactly for a letter with such an address whose earlier stages pass. |
| Sanitise.CandidateIsTheOtherStandardWindow | app/precompiled.py:97-109 | For a letter without a window of its own the retry uses the other standard window, also for an unrecognised placement. |
| Sanitise.CandidatesAre | app/precompiled.py:194-198 | With a postage area the retries are at 50 mm and then 60 mm, otherwise at the one of the two that the placement is not. |
| ResultCache.CacheIsTransparentIff | app/__init__.py:79-111 | With a collision-free digest, every answer in every interleaving equals the uncached value if and only if the cached functions hand over their streams rewound. |
| ResultCache.CacheKeysAreInjective | app/__init__.py:80-85 | Different requests never share a key, although the joined arguments have nothing between them. |
| ResultCache.JoinedArgumentsAreInjective | app/preview.py:51 | A page followed by True or False determines both. |
| ResultCache.SystemStepKeepsInvariant | app/__init__.py:87-107 | Hits, misses, uploads, evictions and expiry all keep every stored value equal to the uncached one. |
| ResultCache.Worker.CachingS3Download | app/utils.py:41-48 | A hit is answered from the worker's own cache, a download is in that cache afterwards, a miss or failure is not remembered. |
| ResultCache.Worker.NewFunction | app/__init__.py:88-107 | One request through the cache is a run of the protocol's steps. |

## Left out

- Flask routes, authentication, schemas, logging, metrics, configuration and Celery wiring.
- The insides of Ghostscript, WeasyPrint, ImageMagick, pypdf, PyMuPDF and PIL: they are functions of whole documents
  that may raise and may move a cursor.
- Floating-point rounding: lengths are real numbers; only NaN and the infinities are kept, where windows are parsed.
- PixelCheck.PagesWithContentOutsidePrintableArea: does not model anti-aliasing; a pixel is painted when its centre
  is covered.
- TextExtraction.ExtractTextFromPage: does not model NFKD normalisation or the comparisons that are only logged.
- Parsing of postal addresses: what the address library finds out about a text is data, with an answer of its own about
  the last line for either setting of international letters; only the order of the error codes is modelled.
- Sanitise.FirstProblemDecides: takes it that no library raises ValidationFailed, which is the service's own exception.
- EmbeddedFonts.ContainsUnembeddedFonts: requires every page's resources to be free of cycles; otherwise, and for
  resources nested some hundreds of levels deep, Python's recursion limit ends the walk with an exception.
- AddressWindow.CrashIff: does not model that str may raise on a value nested too deeply.
- LetterParts.SanitiseAndMergeLetterParts: exceptions other than S3 errors stop a delivery like an S3 error does; what
  notifynl-api does with part 0 after the message is not part of this model.
- TemplatedLetter.CreatePdfForTemplatedLetter: Celery's own retries are further deliveries; raw attachments are taken
  to have other names than the one an over-long letter is stored under.
- ResultCache.Worker.NewFunction: which entry an insertion evicts is left open, and interference by other workers
  within one request is in the protocol, not in the method.
- Merging a drawing into a page is painting its rectangles over the page's pixels.
- The code kept only for upstream's tests: redrawing and redacting the address block, and the single-attachment form
  of adding attachments.
- The two tasks that recreate PDFs from backups, file-size warnings, page size and rotation checks, and which pages
  are searched for the NOTIFY tag: each is settled by one branch.
