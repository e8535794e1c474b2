# Lanchonete bot: the order-text pipeline in Dafny

The lanchonete bot is a WhatsApp bot for a snack bar. For every incoming message it:

- normalises the text: accents stripped, lower case, punctuation turned into spaces, runs of blanks collapsed, trimmed;
- logs the text;
- routes the message on the first keyword the text contains: menu, help, location, confirm, cancel, delivery, address;
- reads any other message as an order. A global regular expression finds the pairs "quantity, item phrase". Each phrase is matched against the names and synonyms of the catalog items through a similarity score with threshold 0.7. An order with no recognised item gets the "not understood" reply. For an understood order the two versions differ: the full bot's call that saves the order throws, so it answers with its error reply (see Findings), and the smaller bot replies with the total only.

The repository has two versions of the bot:

- `src/bot.js`, the full one;
- `lanchonete-bot/src/bot.js`, a smaller one. It has no group check, fewer keywords and short replies, and it never saves the order.

Both versions share the same normaliser, order scanner and item matcher, which are modelled once here.

Files and modules:

| file | module | models |
|---|---|---|
| `wrappers.dfy` | `Wrappers` | `Option` |
| `chars.dfy` | `Chars` | the JavaScript character classes (`\s`, `\d`, `[a-z]` with the `i` flag), `toLowerCase` and canonical decomposition of one character |
| `strings.dfy` | `Strings` | substring search, `split`/`join`, decimal digits (`parseInt`), numbers with two decimals (`toFixed(2)`) |
| `normalize.dfy` | `Normalization` | `normalizarTexto`, each of its five steps a function |
| `catalog.dfy` | `Catalog` | catalog rows, order lines, the total, the menu text (`formatarCardapio`) and the order reply (`gerarRespostaPedido`) |
| `matcher.dfy` | `Matcher` | `encontrarItem`: a specification function `BestItem` and the loop `FindItem` |
| `extractor.dfy` | `Extractor` | the regular expression `/(\d+)\s*(?:unidade|unidades|x)?\s*([a-z\s]+)/gi` with its backtracking worked out, `exec` with `lastIndex`, and `processarPedido` as the loop `ProcessOrder` |
| `order_examples.dfy` | `OrderExamples` | what the scanner reads from three concrete messages, worked out on its rules |
| `router.dfy` | `Router` | the `message` handler of `src/bot.js`, as written and as evidently intended |
| `lite_router.dfy` | `LiteRouter` | the `message` handler of `lanchonete-bot/src/bot.js` |

How the model represents the program:

- Money is an integer number of cents.
- The similarity library (`string-similarity`) is a parameter of type `(string, string) -> real`.
- The threshold is the exact real 0.7.
- The collaborators of a handler are summed up in an `Env` value, one per message:
  - whether the database accepts the log;
  - what the catalog query returns;
  - what the route service answers;
  - whether saving the order succeeds.

Three consequences of the regular expression are proved on concrete texts:

- the alternatives are tried in the order written, so in `3 unidades coca` the unit `unidade` is taken and the phrase is `s coca`;
- in `2 xis` the unit `x` is taken and the phrase is `is`;
- in `2 3 coca` no unit and no letter follow the `2`, so `\s*` gives the blank after it back to group 2: the first fragment has quantity 2 and an empty phrase, the second has quantity 3 and the phrase `coca`.

## Model

| member | source | states |
|---|---|---|
| Chars.ToLower | src/bot.js:107 | an upper-case ASCII letter becomes the lower-case letter at the same distance from `a`; every other character is unchanged |
| Chars.Decompose | src/bot.js:106 | a character decomposes to one or two characters; ASCII characters decompose to themselves; a two-character decomposition is a letter followed by a combining mark |
| Strings.ContainsChar | src/bot.js:73 | the substring test with a one-character key holds exactly when the character occurs in the text |
| Strings.ContainsSlice | src/bot.js:46-68 | a keyword found at some position of the text makes the substring test succeed |
| Strings.ContainsIff | src/bot.js:46-73 | the substring test holds exactly when the keyword occurs at some position of the text |
| Strings.ContainsWithin | src/bot.js:46-73 | a text holds whatever a part of it holds |
| Strings.ContainsTrans | src/bot.js:46-73 | a text holds whatever is held by a text it holds |
| Strings.ContainsSelf | src/bot.js:46-73 | a text holds itself |
| Strings.JoinContains | src/bot.js:169-170 | a joined text holds each of its parts |
| Strings.MissingFirstChar | src/bot.js:46-68 | a keyword whose first character never occurs in the text is not found |
| Strings.IndexOf | src/bot.js:135 | the position returned holds the separator, and no earlier position does |
| Strings.Split | src/bot.js:135 | splitting gives at least one piece, no piece holds the separator, and joining the pieces with the separator gives the text back |
| Strings.DigitValue | src/bot.js:119 | a decimal digit is worth less than ten |
| Strings.Digit | src/bot.js:119 | the digit of a value below ten is a decimal digit that reads back as that value |
| Strings.LeadingZeroIgnored | src/bot.js:119 | a leading zero does not change the value `parseInt` reads |
| Strings.DigitsOf | src/bot.js:182 | a number is written with digits, without a leading zero, and reads back as the number |
| Strings.CentsText | src/bot.js:158 | a cent amount is written as whole units, a point and exactly two digits, which read back as the amount |
| Strings.MoneyText | src/bot.js:183 | a non-negative amount is written as its two-decimal text, and a negative one as a minus sign before that text |
| Normalization.WithoutMarks | src/bot.js:106 | the combining marks go and nothing else does: a character is in the result exactly when it is in the text and is not a mark |
| Normalization.WithoutMarksAppend | src/bot.js:106 | removing the marks from two joined texts is removing them from each and joining |
| Normalization.DecomposedAppend | src/bot.js:106 | decomposing two joined texts is decomposing each and joining |
| Normalization.AccentedKeepsBase | src/bot.js:104-111 | an accented letter normalises to its base letter, lower-cased |
| Normalization.BaseUnmarked | src/bot.js:106 | a letter or an accented letter decomposes to a letter, plus a mark that is then removed |
| Normalization.Bases | src/bot.js:106 | a word has one base letter per character |
| Normalization.BasesUnmarked | src/bot.js:106 | a word of letters and accented letters loses its accents and keeps its base letters, one per character |
| Normalization.NormalizeWord | src/bot.js:104-111 | such a word normalises to its base letters, lower-cased |
| Normalization.LetterTail | src/bot.js:108-110 | scrubbing, collapsing and trimming leave lower-cased letters alone |
| Normalization.NormalizeCao | src/bot.js:104-111 | `Ção` normalises to `cao` |
| Normalization.CaoWordChars | src/bot.js:106 | every character of `Ção` is a letter or an accented letter |
| Normalization.CaoBases | src/bot.js:106 | the base letters of `Ção` are `Cao` |
| Normalization.Lowered | src/bot.js:107 | the text keeps its length, and every character is lower-cased on its own |
| Normalization.Scrubbed | src/bot.js:108 | the text keeps its length; kept characters stay and every other character becomes a space |
| Normalization.DropSpaces | src/bot.js:110 | dropping the leading blanks never lengthens the text |
| Normalization.DropSpacesSuffix | src/bot.js:110 | the result is a suffix of the text that does not start with a blank |
| Normalization.DropSpacesSolid | src/bot.js:110 | dropping the leading blanks loses no letter or digit |
| Normalization.DropTrailingSpaces | src/bot.js:110 | dropping the trailing blanks never lengthens the text |
| Normalization.DropTrailingSpacesPrefix | src/bot.js:110 | the result is a prefix of the text that does not end with a blank |
| Normalization.DropTrailingSpacesSolid | src/bot.js:110 | dropping the trailing blanks loses no letter or digit |
| Normalization.Trimmed | src/bot.js:110 | trimming never lengthens the text and leaves no blank at either end |
| Normalization.TrimmedSolid | src/bot.js:110 | trimming keeps every letter and digit, in order |
| Normalization.TrimmedNormalized | src/bot.js:110 | trimming a text of normal characters with no double space gives normalised text |
| Normalization.Collapsed | src/bot.js:109 | collapsing never lengthens the text and keeps the first character (a blank becomes a plain space) |
| Normalization.DropSpacesAppend | src/bot.js:109-110 | dropping the leading blanks of a text that ends off a blank does not reach what follows it |
| Normalization.CollapsedBoundary | src/bot.js:109 | at a blank after a non-blank, the result is the text before it collapsed, one space, then the rest collapsed with its leading blanks dropped: each blank run becomes exactly one space |
| Normalization.NormalizeJoinsWords | src/bot.js:104-111 | two normalised words around a punctuation mark or a blank normalise to the words joined by one space |
| Normalization.BlankJoined | src/bot.js:109-110 | collapsing and trimming two normalised words around a blank joins them with one space |
| Normalization.SeparatorScrubbed | src/bot.js:106-108 | before collapsing, the separator between two normalised words becomes a blank and the words are unchanged |
| Normalization.AsciiJoined | src/bot.js:106 | two normalised words around a separator form an ASCII text |
| Normalization.SeparatorLowered | src/bot.js:107-108 | lower-casing and scrubbing turn the separator into a blank and leave the words alone |
| Normalization.NormalizeCocaCola | src/bot.js:104-111 | `coca,cola` normalises to `coca cola`, not `cocacola` |
| Normalization.CollapsedSolid | src/bot.js:109 | collapsing keeps every letter and digit, in order |
| Normalization.CollapsedNoDoubleSpace | src/bot.js:109 | collapsing leaves no two adjacent spaces |
| Normalization.CollapsedNormalChars | src/bot.js:108-109 | collapsing scrubbed text leaves only `a`-`z`, `0`-`9` and the space |
| Normalization.Normalize | src/bot.js:104-111 | the normal form holds only `a`-`z`, `0`-`9` and single spaces, none at either end |
| Normalization.SolidAppend | src/bot.js:108-110 | the letters and digits of two joined texts are those of each text, joined |
| Normalization.NormalizedIsFixed | src/bot.js:104-111 | normalising a normalised text gives it back |
| Normalization.TrimmedNormal | src/bot.js:110 | trimming a normalised text changes nothing |
| Normalization.TrimmedFixed | src/bot.js:110 | trimming a text with no space at either end changes nothing |
| Normalization.TrimmedIdempotent | src/bot.js:120 | trimming twice is trimming once |
| Normalization.NormalIsSpaceOnlyIfBlank | src/bot.js:108-109 | in normalised text the only blank is the plain space, and every character survives lower-casing and scrubbing |
| Normalization.LoweredScrubbedNormal | src/bot.js:107-108 | lower-casing and scrubbing leave normalised characters alone |
| Normalization.DecomposedAscii | src/bot.js:106 | decomposition leaves ASCII text alone |
| Normalization.WithoutMarksAscii | src/bot.js:106 | removing the marks leaves ASCII text alone |
| Normalization.CollapsedNormal | src/bot.js:109 | collapsing a text with no double space changes nothing |
| Normalization.NormalizeIdempotent | src/bot.js:104-111 | normalising twice is normalising once, and a text is its own normal form exactly when it is normalised |
| Normalization.NormalizeHasNoComma | src/bot.js:108 | normalised text never holds a comma |
| Normalization.SolidOfScrubbed | src/bot.js:108 | scrubbing keeps exactly the letters and digits, in order |
| Normalization.NormalizeKeepsLettersAndDigits | src/bot.js:104-111 | the normal form holds exactly the letters and digits of the unaccented, lower-cased text; it is empty exactly when that text has none |
| Catalog.Terms | src/bot.js:135 | an item's terms are its name first, then the comma-free pieces of its synonyms column, which join with commas back into that column; a NULL or empty column adds nothing |
| Catalog.TotalAppend | src/bot.js:90 | the total of two lists of lines is the sum of their totals |
| Catalog.TotalOfLines | src/bot.js:90 | the total is the first line's price times quantity plus the total of the rest |
| Catalog.Total | src/bot.js:90 | with no negative price the total is not negative |
| Catalog.PriceLines | src/bot.js:169 | one price line per item, in order |
| Catalog.InCategory | src/bot.js:169 | the filter keeps exactly the catalog items of the category |
| Catalog.InCategoryAppend | src/bot.js:169 | filtering two joined catalogs is filtering each and joining |
| Catalog.Blocks | src/bot.js:168-170 | the menu has one block per catalog item |
| Catalog.MenuBlock | src/bot.js:167-171 | block `k` is the category of item `k` between asterisks, then a price line for every item of that category and for no other |
| Catalog.MenuRepeatsCategory | src/bot.js:168-169 | two items of the same category give the same block, so a category is printed once per item |
| Catalog.BlockListsCategory | src/bot.js:169 | a block opens with its category between asterisks and lists the price line of every catalog item of that category |
| Catalog.MenuListsEveryItem | src/bot.js:167-171 | the menu holds the block of every item's category and the price line of every item |
| Catalog.LineText | src/bot.js:182 | an order item is written as a digit run that reads back as the quantity, then `x ` and the item name |
| Catalog.LineTexts | src/bot.js:182 | one text per order line, in order |
| Catalog.OrderReplyListsLines | src/bot.js:181-184 | the order reply names every order line |
| Catalog.OrderReplyFrame | src/bot.js:181-184 | the order reply opens with its header and ends with the total written with two decimals |
| Matcher.Scores | src/bot.js:134-139 | there is one score per item and term |
| Matcher.ScoreAt | src/bot.js:138-139 | each score compares the normalised phrase with the normalised term |
| Matcher.FindItem | src/bot.js:131-150 | the nested loop returns what the specification `BestItem` returns |
| Matcher.Scan | src/bot.js:133-147 | the best so far is either `{0, null}` or an item of the catalog with a score of at least 0.7 |
| Matcher.ScanFirstBest | src/bot.js:133-149 | when the whole scan finds an item, that item owns the first term with the highest score |
| Matcher.ScanDescribed | src/bot.js:133-149 | after any prefix of the scan, the current best is empty when no score so far reaches the threshold; otherwise it is won by the first of the highest scores so far |
| Matcher.SameBefore | src/bot.js:134-137 | the first term of the next item comes right after the last term of the previous item |
| Matcher.StepDescribed | src/bot.js:141-146 | one comparison keeps the description of the best so far |
| Matcher.BestItemNoneIff | src/bot.js:131-150 | no item is found exactly when every score is below 0.7 |
| Matcher.BestItemIsFirstBest | src/bot.js:131-150 | a found item owns the first term, in scan order, with the highest score that reaches 0.7 |
| Matcher.FirstBestUnique | src/bot.js:141 | only one term is the first with the highest score |
| Matcher.FirstBestIsResult | src/bot.js:131-150 | the owner of that first highest-scoring term is the item returned |
| Matcher.BestItem | src/bot.js:131-150 | a found item is an item of the catalog |
| Extractor.RunEnd | src/bot.js:114 | a greedy run stays within the text |
| Extractor.RunEndFacts | src/bot.js:114 | a greedy run holds only characters of its class and stops at the first character outside it |
| Extractor.Group2 | src/bot.js:114 | group 2 lies inside the text after the unit; it exists exactly when a letter or blank follows the unit |
| Extractor.Group2Facts | src/bot.js:114 | group 2 is preceded only by blanks, holds only letters and blanks, and cannot be extended |
| Extractor.MatchAt | src/bot.js:114 | a match found at a position starts there, ends inside the text on a letter or blank, and has its groups in order; none starts off a digit |
| Extractor.UnitEnd | src/bot.js:114 | the unit part ends inside the text, and a unit word is taken only when group 2 can follow it |
| Extractor.UnitEndFrom | src/bot.js:114 | the remaining alternatives end inside the text, and one is taken only when group 2 can follow it |
| Extractor.UnitEndFromFirstFit | src/bot.js:114 | the alternation takes the first alternative, in the order written, that is present and lets group 2 match, and falls back to the digits' end when none does |
| Extractor.FirstFitShift | src/bot.js:114 | the first fitting alternative after one that does not fit is the first fitting alternative of the whole list |
| Extractor.UnitEndFirstFit | src/bot.js:114 | after the digits come blanks, then the first of `unidade`, `unidades`, `x` that is written there and lets group 2 match; the unit part is empty exactly when none does |
| Extractor.MatchGap | src/bot.js:114 | between group 1 and group 2 come the unit part and then only blanks |
| Extractor.MatchAtFacts | src/bot.js:114 | in a match, group 1 is a maximal digit run and group 2 a maximal run of letters and blanks; the matcher fails at a digit only when no letter or blank follows the digit run |
| Extractor.NextMatch | src/bot.js:118 | the match `exec` returns starts at or after `lastIndex` and is what the matcher finds there |
| Extractor.NextMatchStart | src/bot.js:118 | the match `exec` returns sits at `lastIndex` or right after a non-digit |
| Extractor.NextMatchStartsRun | src/bot.js:118 | from an index that is not inside a digit run, the match `exec` returns starts a digit run and ends off a digit |
| Extractor.NextMatchLeftmost | src/bot.js:118 | the matcher fails at every position between `lastIndex` and the match returned |
| Extractor.MatchEndsOffDigit | src/bot.js:114 | a match never ends on a digit |
| Extractor.MatchSpans | src/bot.js:114 | a match's groups lie in order inside the text, and group 1 is all digits |
| Extractor.MatchesAfter | src/bot.js:118 | every match the loop meets is a real match at or after the starting index |
| Extractor.MatchesWellFormed | src/bot.js:114-118 | every match the loop meets has maximal groups |
| Extractor.MatchesFrom | src/bot.js:118 | every match the loop meets lies inside the text and starts at or after the starting index |
| Extractor.OrderedCons | src/bot.js:118 | a match that ends before every later match keeps the list ordered |
| Extractor.MatchesOrdered | src/bot.js:118 | the matches do not overlap and follow one another left to right |
| Extractor.MatchesStartRuns | src/bot.js:118 | every group 1 starts a digit run of the text |
| Extractor.StartsRunCons | src/bot.js:118 | a match that starts a digit run, put before matches that do, keeps that property |
| Extractor.FragmentsFollowMatches | src/bot.js:118-120 | there is one fragment per match, read from that match's groups |
| Extractor.FollowsFrom | src/bot.js:118-120 | the fragments follow the matches one for one, each read from its match |
| Extractor.FollowsAt | src/bot.js:118-120 | in fragments that follow matches, fragment `j` is read from match `j` |
| Extractor.FragmentShape | src/bot.js:120 | a match's groups lie inside the text; its phrase holds only letters and blanks, with no blank at either end |
| Extractor.FragmentsFromMatches | src/bot.js:113-129 | the fragments come from ordered matches; each quantity is the value of a whole digit run, each phrase is trimmed letters and blanks |
| Extractor.RunEndLast | src/bot.js:114 | a non-empty greedy run ends on a character of its class |
| Extractor.RunContinues | src/bot.js:114-118 | when the matcher succeeds right after a digit, it succeeds on that digit too |
| Extractor.RunEndShift | src/bot.js:114 | inside a digit run, the matcher succeeds one position later exactly when it succeeds here |
| Extractor.TrimmedKeeps | src/bot.js:120 | trimming keeps a character property that holds throughout the text |
| Extractor.NoDigitNoMatch | src/bot.js:114-118 | a text with no digit has no match |
| Extractor.Resolve | src/bot.js:121-126 | there are never more order lines than fragments |
| Extractor.ProcessOrder | src/bot.js:113-129 | the `exec` loop returns the lines of the specification `OrderLines` |
| Extractor.ResolveStep | src/bot.js:118-126 | one turn of the loop appends the line of the next fragment, when its phrase matches an item, and moves on past the match |
| Extractor.FragmentFields | src/bot.js:119-120 | the quantity is the value of group 1, which is all digits, and the phrase is group 2 trimmed |
| Extractor.SingleMatch | src/bot.js:118 | a text with exactly one match gives exactly that match's fragment |
| Extractor.FragmentsFromStep | src/bot.js:118-120 | the fragments from an index are the next match's fragment, then those after that match |
| Extractor.FragmentOf | src/bot.js:119-120 | a phrase is no longer than group 2 and has no blank at either end |
| Extractor.FragmentsFrom | src/bot.js:118-120 | there is one fragment per match the loop meets |
| Extractor.Fragments | src/bot.js:118-120 | there is one fragment per match of the whole text |
| Extractor.OrderLines | src/bot.js:113-129 | there are never more order lines than fragments |
| Extractor.ResolveAfter | src/bot.js:121-126 | after the lines found so far come the first fragment's line, when it resolves, and then the lines of the rest |
| Extractor.ResolveFirst | src/bot.js:121-126 | the first fragment gives a line exactly when its phrase matches an item |
| Extractor.ResolveAppend | src/bot.js:121-126 | resolving joined fragment lists is resolving each and joining |
| Extractor.ResolvedLines | src/bot.js:121-126 | every line comes from a fragment with the same quantity whose phrase matched that item |
| Extractor.ResolveKeepsAll | src/bot.js:123-125 | no fragment is dropped exactly when every phrase matches an item |
| Extractor.OrderLinesFromCatalog | src/bot.js:113-129 | every order line holds a catalog item, and the quantity of a fragment whose phrase the matcher maps to that item |
| Extractor.NoDigitNoLines | src/bot.js:113-129 | a message with no digit gives no order line |
| OrderExamples.UnidadesLeavesS | src/bot.js:114-120 | `3 unidades coca` gives the single fragment (3, `s coca`) |
| OrderExamples.UnidadesFragment | src/bot.js:119-120 | the match of `3 unidades coca` reads as quantity 3 and phrase `s coca` |
| OrderExamples.UnidadesMatch | src/bot.js:118 | `3 unidades coca` has one match, and none after it |
| OrderExamples.UnidadesMatchAt | src/bot.js:114 | the match at 0 takes `unidade` as the unit and `s coca` as group 2 |
| OrderExamples.XisLosesX | src/bot.js:114-120 | `2 xis` gives the single fragment (2, `is`) |
| OrderExamples.XisFragment | src/bot.js:119-120 | the match of `2 xis` reads as quantity 2 and phrase `is` |
| OrderExamples.XisMatch | src/bot.js:118 | `2 xis` has one match, and none after it |
| OrderExamples.XisMatchAt | src/bot.js:114 | the match at 0 takes `x` as the unit and `is` as group 2 |
| OrderExamples.DigitsLeaveEmptyPhrase | src/bot.js:114-120 | `2 3 coca` gives the fragments (2, empty phrase) and (3, `coca`) |
| OrderExamples.TwoThreeFragments | src/bot.js:119-120 | the two matches of `2 3 coca` read as (2, empty phrase) and (3, `coca`) |
| OrderExamples.TwoThreeMatches | src/bot.js:118 | `2 3 coca` has two matches, the second starting where the first ends, and none after them |
| OrderExamples.TwoThreeFirstAt | src/bot.js:114 | at `2` no unit is taken and group 2 is the blank after the digit |
| OrderExamples.TwoThreeSecondAt | src/bot.js:114 | at `3` no unit is taken and group 2 is `coca` |
| OrderExamples.PhraseTrimmed | src/bot.js:120 | trimming a phrase that starts and ends with a letter changes nothing |
| Router.Handle | src/bot.js:34-98 | the bot replies to every message except its own |
| Router.RouteReplyShowsDistance | src/bot.js:76 | the route reply gives the distance in kilometres with two decimals |
| Router.RouteReplyEndsWithTime | src/bot.js:76 | the route reply ends with the time in whole minutes |
| Router.FirstHitIsFirst | src/bot.js:46-80 | a keyword chain picks the first row whose keywords the text holds, and reads the text as an order exactly when it holds none |
| Router.ClassifyIsFirstHit | src/bot.js:46-80 | the handler's tests are the table cardapio/menu, ajuda, localizacao/onde, confirmar, cancelar, entrega, comma, read first hit first |
| Router.OrderAnswer | src/bot.js:86-93 | an order with no line gets the "not understood" reply, and one with lines the error reply |
| Router.HandleSeesNormalizedText | src/bot.js:41-44 | a message and its normalised form get the same reply |
| Router.AddressUnreachable | src/bot.js:72-73 | the comma test on normalised text never succeeds |
| Router.RouteNeverConsulted | src/bot.js:73-80 | the route service's answer changes no reply |
| Router.GroupsTurnedAway | src/bot.js:36-38 | a group message gets the group reply, whatever it says and whatever the collaborators answer |
| Router.Answer | src/bot.js:43-97 | a failed log, or a failed catalog query when the catalog is needed, gives the error reply |
| Router.OrderBranch | src/bot.js:86-93 | with the log and the catalog reachable, an order gets "not understood" for no line and the error reply otherwise |
| Router.OrdersNeverConfirmed | src/bot.js:86-93 | an order gives the "not understood" reply when it has no line, and the error reply otherwise |
| Router.SubstringKeyword | src/bot.js:56 | `responder` contains `onde` and gets the location reply |
| Router.HandleIntended | src/bot.js:34-98 | the corrected bot also replies to every message except its own |
| Router.ClassifyIntended | src/bot.js:46-80 | the corrected chain takes the address branch exactly when the typed message holds a comma and no earlier keyword matched; otherwise it agrees with the written chain |
| Router.OrderAnswerIntended | src/bot.js:86-93 | in the corrected order branch, no line gives "not understood", a failed save the error reply, and a saved order a reply naming every line |
| Router.OrderReplyHead | src/bot.js:87-93 | the order reply does not begin like the "not understood" reply |
| Router.AnswerIntended | src/bot.js:43-97 | in the corrected handler, a failed log, or a failed catalog query when the catalog is needed, gives the error reply |
| Router.AddressReachable | src/bot.js:72-80 | with the comma tested on the message as typed, a comma and no earlier keyword get the route reply |
| Router.IntendedAddressBranch | src/bot.js:72-80 | in the corrected handler, a comma in the typed message and no earlier keyword give the route reply, or the route failure reply |
| Router.IntendedOrderBranch | src/bot.js:86-93 | in the corrected handler, a saved order with lines gets the list of its lines and their total |
| Router.IntendedOrderReply | src/bot.js:90-93 | with the order saved, an order with lines gets the list of its lines and their total |
| Router.IntendedAgreesElsewhere | src/bot.js:34-97 | on every message without a comma that is not an order, the corrected bot replies as the written one |
| Router.IntendedAgreesBranch | src/bot.js:41-97 | for a typed message without a comma whose text is not an order (or when the log fails), both handlers answer alike |
| LiteRouter.Handle | lanchonete-bot/src/bot.js:34-75 | the smaller bot replies to every message except its own |
| LiteRouter.TotalReply | lanchonete-bot/src/bot.js:69-70 | the reply to an understood order ends with its total written with two decimals |
| LiteRouter.ClassifyIsFirstHit | lanchonete-bot/src/bot.js:42-60 | the smaller bot's tests are the table cardapio/menu, ajuda, confirmar, cancelar, read first hit first |
| LiteRouter.SenderIgnored | lanchonete-bot/src/bot.js:35-37 | the sender never changes the reply; there is no group check |
| LiteRouter.SameRoutes | lanchonete-bot/src/bot.js:42-62 | the smaller bot's routes are a subset of the full bot's routes. On a text without the extra keywords (`localizacao`, `onde`, `entrega`, a comma) both bots route alike. What the full bot reads as an order, the smaller one reads as an order too |
| LiteRouter.OndeDiffers | lanchonete-bot/src/bot.js:42-62 | `onde` is an order for the smaller bot and a location request for the full one |
| LiteRouter.OrderReplies | lanchonete-bot/src/bot.js:62-70 | an order gives the "not understood" reply when it has no line, and otherwise the total with two decimals |
| LiteRouter.OrderBranch | lanchonete-bot/src/bot.js:62-70 | with the log and the catalog reachable, an order gets its total, or "not understood" for no line |
| LiteRouter.Answer | lanchonete-bot/src/bot.js:39-74 | a failed log, or a failed catalog query when the catalog is needed, gives the error reply |

The smaller bot's `normalizarTexto`, `processarPedido` and `encontrarItem` are the same as those of the full bot, line for line:

- lanchonete-bot/src/bot.js:79-86 is modelled by `Normalization.Normalize`;
- lanchonete-bot/src/bot.js:88-104 is modelled by `Extractor.ProcessOrder`;
- lanchonete-bot/src/bot.js:106-125 is modelled by `Matcher.FindItem`.

Its inline menu (lines 44-46) is `Catalog.Menu`.

## Left out

- Chars.Decompose: canonical decomposition covers the Latin letters with the accents Portuguese uses. Other decomposable characters are kept whole and are then scrubbed to a space; full NFD would keep their base letter.
- Chars.ToLower: only ASCII letters are mapped. A non-ASCII upper-case letter is scrubbed to a space right after, so the normal form is the same.
- Money: prices are integer cents, not floating point. The total and `toFixed(2)` are therefore exact, and the rounding of binary fractions is not modelled.
- Database values: a price stored as a decimal string and a NULL name or category are not modelled. The synonyms column may be NULL.
- Similarity: `stringSimilarity.compareTwoStrings` is a parameter. Its definition (bigram similarity) is not modelled, and nothing depends on it beyond being a function.
- Router.RouteReply: the distance and time come from the route service as a value, in hundredths of a kilometre and whole minutes. The HTTP request to OSRM, and the rounding by `toFixed(2)` and `Math.ceil`, are not modelled.
- Router.LocationReply: the text `gerarRespostaLocalizacao` builds from the configured coordinates is written out as a constant.
- Collaborators that are not modelled:
  - the WhatsApp client, the QR code and the `ready` event;
  - the dashboard;
  - the database module, src/db.js, beyond its outcomes recorded in `Env`;
  - the `console` output;
  - the `async`/`await` scheduling.
- `MAX_SUGGESTIONS` and `TIMEOUT_PEDIDO` are declared and never used.
- Extractor.UnitEndFrom: its own contract gives only the bounds and that group 2 can follow the unit taken. Which alternative is taken (the first, in the order written, that is present and lets group 2 match) is stated by `Extractor.UnitEndFromFirstFit`, and kept out of the function's contract so that the proofs using the function stay small.
- Extractor.UnitEnd: likewise, the blanks, the unit word and the fallback are stated by `Extractor.UnitEndFirstFit` and `Extractor.MatchGap`.
- Extractor.ProcessOrder: a quantity of zero, or with leading zeros, is accepted, as in the code. The quantity is an unbounded number, and `parseInt` precision loss above 2^53 is not modelled.
- Log failures: `registrarLog` (src/db.js:34-46) catches a failing INSERT but not a failing connection (src/db.js:10-18). A connection failure therefore aborts the message with the error reply, and a failing write does not. The model records only whether the log reaches the database.
- Router.Answer and LiteRouter.Answer take the order lines as a parameter, which the handlers compute from the normalised text before branching. The code calls `processarPedido` only in the order branch. The call has no side effect, so every reply is the same.
- Router.Classify: the comma test runs on the normalised text, as the code does at src/bot.js:73, so the address branch is unreachable. `Router.ClassifyIntended` tests the message as typed (see Findings).

## Findings

| source | as written | input that shows it | evidently intended | confidence | as-written member | corrected member |
|---|---|---|---|---|---|---|
| src/bot.js:73 | the address test looks for a comma in the normalised text, which never holds one | any message with a comma and none of the earlier keywords, such as `Rua A, 10` | test the message as typed, so an address gets the route reply | not executed | Router.AddressUnreachable | Router.AddressReachable |
| src/bot.js:91 | `registrarPedido` is imported from src/db.js, which does not export it (src/db.js:48), so the call throws and every understood order gets the error reply | `2 coca` with a catalog item named `coca`, given a similarity of 1 for equal texts | save the order and reply with its items and total | not executed | Router.OrdersNeverConfirmed | Router.IntendedOrderReply |
