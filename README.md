# moore-ai: French normaliser and literary-translation page, in Dafny

This project models two pieces of the moore-ai web front end, a French ↔ Mooré
translation demo.

- `text_utils.dfy` (module `TextUtils`) models `src/lib/textUtils.ts`.
  - `preprocessFrenchText` rewrites the whole word "bienvenu" and then the
    whole word "bienvenue", in any casing, to "bonne arrivée". The casing of
    the phrase follows the casing of the match.
  - `isFrenchSource` compares a language code with `fra_Latn`.

  Each `replace` call with `/\b…\b/gi` is modelled by `ReplaceFrom`. It
  scans from left to right, index by index, as the JavaScript engine does.
  `\b` and the `i` flag work on ASCII only (no `u` flag). A second
  definition, `Rewrite`, cuts the text into maximal runs of word characters
  and rewrites each run that equals the target. The two are proved equal.
  The normaliser's properties are proved on `Rewrite`:
  - text without the target is left unchanged;
  - applying the normaliser twice gives the same result as applying it once;
  - it works independently on each side of a non-word character;
  - the casing rules;
  - what happens at word boundaries.

- `book_translate.dfy` (module `BookTranslate`) models
  `src/pages/BookTranslate.tsx`.
  - The word counter is `trim`, then `split(/\s+/)`, then dropping empty
    pieces, with JavaScript's whitespace set. The 250-word limit applies to
    that count.
  - `translateText` refuses blank text first, then over-limit text.
    Otherwise it sends the normalised text as a `fra_Latn` → `mos_Latn`
    request with `max_chunk_length` 80, raises `isTranslating` while the
    request is out, shows `translated_text || text || ""` on success, and
    lowers the flag in `finally`.
  - `clearText`, the text area's `onChange`, and the disabled state of the
    translate button.
  - The schedule notice is shown on load unless it was closed earlier the
    same day. Closing it records today's date in `localStorage`.

  The component's state is the class `BookTranslatePage`. Its fields are the
  React state and the stored date. The word count is proved to equal the
  number of maximal runs of non-whitespace characters. The guards are proved
  to match a specification in those terms.

Two facts about the code shape the model:
- `isFrenchSource` is exported, but the page never calls it. It calls
  `preprocessFrenchText` unconditionally and hardcodes `src_lang: "fra_Latn"`
  (`src/pages/BookTranslate.tsx:60-69`).
- `\b` ignores non-ASCII letters, so a `bienvenu` right after an accented
  letter is still a whole word (`TextUtils.ExampleAccentedNeighbour`).

The time of day, the browser storage and the translation service are
parameters of the model: today's date string, the stored entry (`None`
when absent), and the service's reply.

## Model

| member | source | states |
|---|---|---|
| TextUtils.PreprocessFrenchText | src/lib/textUtils.ts:12-43 | the result is the `bienvenue` pass applied to the result of the `bienvenu` pass, each pass as the word-by-word reference `Rewrite` |
| TextUtils.ReplaceFrom | src/lib/textUtils.ts:21-30 | the `/gi` scan from an index on (tried at each index from left to right, resuming after each match); when the expression matches nowhere from that index on, the rest of the text comes back unchanged |
| TextUtils.ReplacementFor | src/lib/textUtils.ts:23-29 | the callback always answers one of the three phrases, and it answers the capitals phrase exactly when the match is in capitals |
| TextUtils.ReplaceWord | src/lib/textUtils.ts:21-30 | for a lower-case ASCII target, the global whole-word case-insensitive replacement equals the word-by-word reference `Rewrite` |
| TextUtils.ReplaceFromIsRewrite | src/lib/textUtils.ts:21-30 | from any index not strictly inside a word, the left-to-right non-overlapping regular-expression scan produces exactly what `Rewrite` produces for the rest of the text |
| TextUtils.MatchAtWordStart | src/lib/textUtils.ts:21 | at the start of a word, `/\bw\b/i` matches if and only if the whole word equals w ignoring ASCII case, so no prefix of a longer word matches |
| TextUtils.ScanAtWordStart | src/lib/textUtils.ts:21-30 | at the start of a word the scan emits that word rewritten (the phrase for a match, the word itself otherwise) and continues after it |
| TextUtils.RewriteConcat | src/lib/textUtils.ts:21-40 | a pass distributes over concatenation at any seam that no word crosses |
| TextUtils.FreeIsFixpoint | src/lib/textUtils.ts:21-40 | a pass leaves unchanged any text in which no word equals its target |
| TextUtils.PhrasesFree | src/lib/textUtils.ts:24-28 | none of "BONNE ARRIVÉE", "Bonne arrivée", "bonne arrivée" contains "bienvenu" or "bienvenue" as a word |
| TextUtils.RewriteLeavesFree | src/lib/textUtils.ts:21-40 | after a pass, no word equals its target, and a text free of the other target stays free of it |
| TextUtils.UnchangedWithoutBienvenu | src/lib/textUtils.ts:12-43 | text that contains "bienvenu" nowhere, ignoring case and even inside other words, is returned unchanged |
| TextUtils.Idempotent | src/lib/textUtils.ts:12-43 | normalising twice gives the same text as normalising once |
| TextUtils.SplitsAtNonWord | src/lib/textUtils.ts:12-43 | the text on each side of a non-word character is normalised independently, and the character is kept |
| TextUtils.TargetWord | src/lib/textUtils.ts:21-40 | a lone "bienvenu" or "bienvenue" in any casing becomes the phrase the callback picks for it |
| TextUtils.ReplacementCasing | src/lib/textUtils.ts:23-29 | for a run of ASCII letters, the callback picks the capitals phrase when all letters are capitals, the title phrase when the first is a capital and some letter is lower case, and the lower-case phrase when the first is lower case |
| TextUtils.CasingRules | src/lib/textUtils.ts:23-29 | for either form in any casing (no gender agreement): all capitals give "BONNE ARRIVÉE", a leading 'B' with some lower-case letter gives "Bonne arrivée", a leading 'b' gives "bonne arrivée", and every match starts with 'b' or 'B' |
| TextUtils.TargetInContext | src/lib/textUtils.ts:12-43 | a target between two non-word characters is replaced by its own casing's phrase, and the text around it is normalised on its own and kept in place |
| TextUtils.OtherWordKept | src/lib/textUtils.ts:21 | a word that is neither target up to case is returned unchanged |
| TextUtils.ExampleLower | src/lib/textUtils.ts:27-28 | "bienvenu" becomes "bonne arrivée" |
| TextUtils.ExampleFeminine | src/lib/textUtils.ts:32-39 | "bienvenue" becomes "bonne arrivée" |
| TextUtils.ExampleLowerFirstLetter | src/lib/textUtils.ts:25-28 | "bIENVENU" (neither all capitals nor capitalised) becomes "bonne arrivée" |
| TextUtils.ExampleTitle | src/lib/textUtils.ts:25-26 | "Bienvenu" becomes "Bonne arrivée" |
| TextUtils.ExampleCapitalFirstLetter | src/lib/textUtils.ts:25-26 | "BienVENU" becomes "Bonne arrivée" |
| TextUtils.ExampleUpper | src/lib/textUtils.ts:23-24 | "BIENVENU" becomes "BONNE ARRIVÉE" |
| TextUtils.ExampleInsideWord | src/lib/textUtils.ts:21 | "abienvenuz" is unchanged |
| TextUtils.ExampleLongerWord | src/lib/textUtils.ts:21 | the plural "bienvenus" is unchanged |
| TextUtils.ExampleUnderscore | src/lib/textUtils.ts:21 | "_bienvenu" is unchanged, since `_` is a word character |
| TextUtils.ExampleAccentedNeighbour | src/lib/textUtils.ts:21 | "ébienvenu" becomes "ébonne arrivée", since `\b` ignores non-ASCII letters |
| TextUtils.IsFrenchSource | src/lib/textUtils.ts:51-53 | true exactly for the code `fra_Latn` |
| BookTranslate.TrimStart | src/pages/BookTranslate.tsx:41 | the leading part of `trim`: a suffix of the text, the part removed is whitespace, and the result does not start with whitespace |
| BookTranslate.TrimEnd | src/pages/BookTranslate.tsx:41 | the trailing part of `trim`: a prefix of the text, the part removed is whitespace, and the result does not end with whitespace |
| BookTranslate.Trim | src/pages/BookTranslate.tsx:41 | `trim` leaves nothing exactly when the text is all whitespace; what it leaves neither starts nor ends with whitespace; and it keeps the number of words |
| BookTranslate.SplitOnSpaces | src/pages/BookTranslate.tsx:41 | `split(/\s+/)` gives at least one piece, `[""]` for the empty text, and no piece holds whitespace |
| BookTranslate.SplitPieceEnds | src/pages/BookTranslate.tsx:41 | only the first and last pieces of `split(/\s+/)` can be empty, and each is empty exactly when its end of the text is whitespace or the text is empty |
| BookTranslate.NonEmpty | src/pages/BookTranslate.tsx:41 | the filter keeps exactly the non-empty pieces, each as many times as it occurs: the result's multiset is the pieces' multiset without the empty string, so no kept piece is empty and every non-empty piece is kept |
| BookTranslate.SplitCountsWords | src/pages/BookTranslate.tsx:41 | `split(/\s+/)` followed by dropping empty pieces leaves exactly as many pieces as the text has maximal runs of non-whitespace |
| BookTranslate.TrimStartKeepsWords | src/pages/BookTranslate.tsx:41 | removing leading whitespace does not change the number of words |
| BookTranslate.TrimEndKeepsWords | src/pages/BookTranslate.tsx:41 | removing trailing whitespace does not change the number of words |
| BookTranslate.WordCount | src/pages/BookTranslate.tsx:41 | `wordCount` equals the number of maximal runs of non-whitespace characters in the text |
| BookTranslate.IsOverLimit | src/pages/BookTranslate.tsx:42 | the text is over the limit exactly when it has more than 250 words |
| BookTranslate.ExampleWords | src/pages/BookTranslate.tsx:41 | " a \né " has two words: no-break space and newline separate words like a space, and leading and trailing whitespace make none |
| BookTranslate.ExampleWordCount | src/pages/BookTranslate.tsx:41 | `wordCount` of that text is 2 |
| BookTranslate.NoWordsIffBlank | src/pages/BookTranslate.tsx:41-47 | a text has no words if and only if it is all whitespace |
| BookTranslate.BlankIsEmptyText | src/pages/BookTranslate.tsx:47-55 | blank text is refused as empty, and blank text is never over the limit |
| BookTranslate.LimitIsInclusive | src/pages/BookTranslate.tsx:42 | a text of exactly 250 words is sent: only more than 250 is refused |
| BookTranslate.SentRequestIsFrench | src/pages/BookTranslate.tsx:60-71 | a sent request has a French source language and a target language that is not French, and carries the normalised, untrimmed text |
| BookTranslate.TranslateEnabled | src/pages/BookTranslate.tsx:179 | the translate button is enabled only on an idle page with between 1 and 250 words of French |
| BookTranslate.EnabledExactlyWhenSent | src/pages/BookTranslate.tsx:179 | on an idle page the translate button is enabled exactly for the texts `translateText` would send, and it is never enabled while a translation is running |
| BookTranslate.Shown | src/pages/BookTranslate.tsx:80 | the text shown is `translated_text` when it is a non-empty string, else `text` when that is one, else empty; it is empty exactly when neither field is a non-empty string |
| BookTranslate.AfterReply | src/pages/BookTranslate.tsx:75-84 | a failure leaves the Mooré text as it was; an answer replaces it, with its `translated_text` when that is a non-empty string, else with its `text` when that is one, and with the empty text exactly when neither field is one |
| BookTranslate.BookTranslatePage.constructor | src/pages/BookTranslate.tsx:13-16 | both texts start empty, no translation is running, the dialog is closed, and the stored date is whatever the browser held |
| BookTranslate.BookTranslatePage.OnLoad | src/pages/BookTranslate.tsx:19-30 | the schedule dialog is opened when the stored date is not today's, and otherwise left as it was |
| BookTranslate.BookTranslatePage.HandleScheduleDialogClose | src/pages/BookTranslate.tsx:32-39 | the dialog follows `open`; closing it stores today's date, and opening it leaves the stored date alone |
| BookTranslate.BookTranslatePage.SetFrenchText | src/pages/BookTranslate.tsx:162 | the French text becomes what was typed |
| BookTranslate.BookTranslatePage.BeginTranslate | src/pages/BookTranslate.tsx:46-71 | the outcome is the specification `Expected`: blank text refused as empty, then more than 250 words refused as over the limit, otherwise the normalised text sent as `fra_Latn` → `mos_Latn` with chunk length 80; `isTranslating` is raised exactly when something is sent |
| BookTranslate.BookTranslatePage.CompleteTranslate | src/pages/BookTranslate.tsx:75-87 | a successful answer replaces the Mooré text with the field `translated_text \|\| text \|\| ""` selects, a failure leaves it, and `isTranslating` ends lowered either way |
| BookTranslate.BookTranslatePage.TranslateText | src/pages/BookTranslate.tsx:46-88 | a refused submission changes neither the flag nor the Mooré text; a sent one ends with the flag lowered and the Mooré text set from the reply |
| BookTranslate.BookTranslatePage.ClearText | src/pages/BookTranslate.tsx:90-93 | both texts become empty |
| BookTranslate.ScheduleNoticeOncePerDay | src/pages/BookTranslate.tsx:19-39 | a page loaded on a day the notice has not been closed shows it; after it is closed, a page loaded later that day over the same storage does not |
| BookTranslate.TranslationSession | src/pages/BookTranslate.tsx:46-88 | on a fresh page the flag is up exactly while a request is out, is down afterwards, and the Mooré text is what the reply selects, or empty when nothing was sent |
| BookTranslate.TranslateAfterClear | src/pages/BookTranslate.tsx:90-93 | translating right after `clearText` is refused as empty, whatever was typed before, and the Mooré area stays empty |

## Left out

- The `typeof text !== 'string'` guard of `preprocessFrenchText` (`src/lib/textUtils.ts:13`): the model's argument is always a string. The `!text` half, for the empty string, is modelled.
- IsFrenchSource: its contract is close to its one comparison, since the function is nothing more. The page does not call it. `SentRequestIsFrench` states what it is for: a sent request's source is French and its target is not.
- The network call in `translateText`: URL, headers, JSON encoding, `response.ok` and parsing the body. The service's answer is a `Reply` parameter. Every failure (network error, bad status, body that is not JSON) is the single case `Failed`. Values of `translated_text` or `text` that are not strings are not modelled.
- React's asynchronous state updates: each setter takes effect at once. The `await` is the boundary between `BeginTranslate` and `CompleteTranslate`, and the user may change the French text in between. Two translations running at once are not modelled, since the button is disabled while one runs.
- Toasts, `console.error`, navigation, the JSX layout, the counter colour at 200 words (`src/pages/BookTranslate.tsx:155`) and the over-limit banner (`src/pages/BookTranslate.tsx:169-174`): presentation only.
- The clear button's disabled state (`src/pages/BookTranslate.tsx:198`): it is `isTranslating` itself. `clearText` has no guard of its own, and `ClearText` has no precondition.
- `new Date().toDateString()` and `localStorage` as browser APIs. Today's date is a parameter of each call, so loading and closing may see different days. The stored entry is a field and a constructor argument. Storage errors are not modelled.
- JavaScript strings are UTF-16 code units, while the model's characters are Unicode scalar values. Both regular expressions are ASCII and the whitespace set has no surrogates, so no behaviour modelled here depends on the difference. The whitespace set is ECMAScript's WhiteSpace and LineTerminator, with the current Unicode space separators.
- `src/components/tabs/FrenchToMoore.tsx`, `src/components/tabs/MooreToFrench.tsx`, `src/components/tabs/SpeechToText.tsx`, `src/components/TranslationDemo.tsx` and `src/components/ServerScheduleDialog.tsx` are not part of this model. They are other pages and the dialog's rendering.
