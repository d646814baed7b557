/**
 * The literary-translation page of src/pages/BookTranslate.tsx: the word
 * count and its 250-word limit, the guards of `translateText` and the
 * request it sends, `clearText`, and the once-a-day schedule notice.
 *
 * React state becomes the fields of a class, `localStorage` becomes a field
 * holding the stored date, today's date is a parameter, and the translation
 * service is reduced to the request sent and the reply received.
 */
module BookTranslate {
  import opened TextUtils

  // ---------------------------------------------------------------------
  // Whitespace, `trim` and `split(/\s+/)` as JavaScript defines them
  // ---------------------------------------------------------------------

  /**
   * ECMAScript WhiteSpace and LineTerminator characters: what `trim`
   * removes and what `\s` matches.
   */
  predicate IsSpace(c: char) {
    || c == '\t' || c == '\n' || c == '\U{B}' || c == '\U{C}' || c == '\r' || c == ' '
    || c == '\U{A0}' || c == '\U{1680}' || ('\U{2000}' <= c <= '\U{200A}')
    || c == '\U{2028}' || c == '\U{2029}' || c == '\U{202F}' || c == '\U{205F}'
    || c == '\U{3000}' || c == '\U{FEFF}'
  }

  /** The text holds nothing but whitespace (or nothing at all). */
  predicate IsBlank(s: string) {
    forall k :: 0 <= k < |s| ==> IsSpace(s[k])
  }

  /** Leading whitespace removed: a suffix of s, the part dropped is blank. */
  function TrimStart(s: string): (r: string)
    ensures |r| <= |s| && r == s[|s| - |r|..]
    ensures IsBlank(s[..|s| - |r|])
    ensures r == [] || !IsSpace(r[0])
  {
    if s != [] && IsSpace(s[0]) then TrimStart(s[1..]) else s
  }

  /** Trailing whitespace removed: a prefix of s, the part dropped is blank. */
  function TrimEnd(s: string): (r: string)
    ensures |r| <= |s| && r == s[..|r|]
    ensures IsBlank(s[|r|..])
    ensures r == [] || !IsSpace(r[|r| - 1])
  {
    if s != [] && IsSpace(s[|s| - 1]) then TrimEnd(s[..|s| - 1]) else s
  }

  /**
   * `s.trim()`: nothing is left exactly when the text is blank, what is left
   * neither starts nor ends with whitespace, and the words are all kept.
   */
  function Trim(s: string): (r: string)
    ensures r == [] <==> IsBlank(s)
    ensures r == [] || (!IsSpace(r[0]) && !IsSpace(r[|r| - 1]))
    ensures CountWords(r) == CountWords(s)
  {
    var t := TrimStart(s);
    assert TrimEnd(t) == [] ==> IsBlank(s) by {
      if TrimEnd(t) == [] {
        assert t[|TrimEnd(t)|..] == t;
        assert s[..|s| - |t|] == s;
      }
    }
    TrimStartKeepsWords(s);
    TrimEndKeepsWords(t);
    TrimEnd(t)
  }

  /** No character of s is whitespace. */
  predicate HasNoSpace(s: string) {
    forall t :: 0 <= t < |s| ==> !IsSpace(s[t])
  }

  /** Index of the first whitespace character of s, or |s| when there is none. */
  function FirstSpace(s: string): (k: nat)
    ensures k <= |s|
    ensures forall t :: 0 <= t < k ==> !IsSpace(s[t])
    ensures k < |s| ==> IsSpace(s[k])
  {
    if s == [] || IsSpace(s[0]) then 0 else 1 + FirstSpace(s[1..])
  }

  /** Length of the run of whitespace that starts s. */
  function SpaceRunLen(s: string): (n: nat)
    ensures n <= |s|
    ensures forall t :: 0 <= t < n ==> IsSpace(s[t])
    ensures n == |s| || !IsSpace(s[n])
  {
    if s == [] || !IsSpace(s[0]) then 0 else 1 + SpaceRunLen(s[1..])
  }

  /**
   * `s.split(/\s+/)`: the pieces between maximal runs of whitespace; a run
   * at either end leaves an empty piece there, and "" gives [""].
   */
  function SplitOnSpaces(s: string): (pieces: seq<string>)
    ensures |pieces| >= 1
    ensures s == [] ==> pieces == [[]]
    ensures forall k :: 0 <= k < |pieces| ==> HasNoSpace(pieces[k])
    decreases |s|
  {
    var k := FirstSpace(s);
    if k == |s| then
      [s]
    else
      var m := k + SpaceRunLen(s[k..]);
      var rest := SplitOnSpaces(s[m..]);
      var pieces := [s[..k]] + rest;
      assert forall j :: 0 < j < |pieces| ==> pieces[j] == rest[j - 1];
      pieces
  }

  /** `.filter(word => word.length > 0)`: exactly the non-empty pieces. */
  function NonEmpty(pieces: seq<string>): (r: seq<string>)
    ensures |r| <= |pieces|
    ensures forall k :: 0 <= k < |r| ==> r[k] != []
    ensures forall p :: p in r <==> p in pieces && p != []
    ensures multiset(r) == multiset(pieces)[[] := 0]
  {
    if pieces == [] then []
    else
      assert pieces == [pieces[0]] + pieces[1..];
      (if pieces[0] == [] then [] else [pieces[0]]) + NonEmpty(pieces[1..])
  }

  /** `wordCount`: the number of maximal runs of non-whitespace characters. */
  function WordCount(text: string): (r: nat)
    ensures r == CountWords(text)
  {
    SplitCountsWords(Trim(text));
    |NonEmpty(SplitOnSpaces(Trim(text)))|
  }

  const WordLimit: nat := 250

  /** `isOverLimit`. */
  predicate IsOverLimit(text: string)
    ensures IsOverLimit(text) <==> CountWords(text) > WordLimit
  {
    WordCount(text) > WordLimit
  }

  // ---------------------------------------------------------------------
  // Reference: words as maximal runs of non-whitespace characters
  // ---------------------------------------------------------------------

  /**
   * Number of maximal runs of non-whitespace characters in s, where
   * afterWord says whether s continues a run begun before it: every
   * non-whitespace character that follows whitespace or the start begins a
   * new word.
   */
  function Runs(s: string, afterWord: bool): nat {
    if s == [] then 0
    else if IsSpace(s[0]) then Runs(s[1..], false)
    else (if afterWord then 0 else 1) + Runs(s[1..], true)
  }

  /** The number of words of a text. */
  function CountWords(s: string): nat {
    Runs(s, false)
  }

  // ---------------------------------------------------------------------
  // The word count is the number of words
  // ---------------------------------------------------------------------

  /** A text without whitespace is one word, or none when empty. */
  lemma {:induction false} RunsWithoutSpace(s: string, afterWord: bool)
    requires forall t :: 0 <= t < |s| ==> !IsSpace(s[t])
    ensures Runs(s, afterWord) == if s != [] && !afterWord then 1 else 0
    decreases |s|
  {
    if s != [] {
      RunsWithoutSpace(s[1..], true);
    }
  }

  /** A word of k characters ended by whitespace at index k. */
  lemma {:induction false} RunsWordThenSpace(s: string, k: nat, afterWord: bool)
    requires k < |s| && IsSpace(s[k])
    requires forall t :: 0 <= t < k ==> !IsSpace(s[t])
    ensures Runs(s, afterWord) == (if k > 0 && !afterWord then 1 else 0) + Runs(s[k..], false)
    decreases k
  {
    if k > 0 {
      RunsWordThenSpace(s[1..], k - 1, true);
      assert s[1..][k - 1..] == s[k..];
    }
  }

  /** Leading whitespace ends any word and adds none. */
  lemma {:induction false} RunsAfterSpaces(s: string, m: nat, afterWord: bool)
    requires 0 < m <= |s|
    requires forall t :: 0 <= t < m ==> IsSpace(s[t])
    ensures Runs(s, afterWord) == Runs(s[m..], false)
    decreases m
  {
    if m > 1 {
      RunsAfterSpaces(s[1..], m - 1, false);
      assert s[1..][m - 1..] == s[m..];
    }
  }

  /** Trailing whitespace adds no word. */
  lemma {:induction false} RunsBeforeSpace(s: string, c: char, afterWord: bool)
    requires IsSpace(c)
    ensures Runs(s + [c], afterWord) == Runs(s, afterWord)
    decreases |s|
  {
    if s == [] {
      assert s + [c] == [c];
    } else {
      assert (s + [c])[1..] == s[1..] + [c];
      RunsBeforeSpace(s[1..], c, !IsSpace(s[0]));
    }
  }

  /** Splitting on whitespace and dropping empty pieces leaves exactly the words. */
  lemma {:induction false} SplitCountsWords(s: string)
    ensures |NonEmpty(SplitOnSpaces(s))| == CountWords(s)
    decreases |s|
  {
    var k := FirstSpace(s);
    if k == |s| {
      RunsWithoutSpace(s, false);
    } else {
      var m := k + SpaceRunLen(s[k..]);
      var rest := SplitOnSpaces(s[m..]);
      assert SplitOnSpaces(s) == [s[..k]] + rest;
      assert ([s[..k]] + rest)[1..] == rest;
      SplitCountsWords(s[m..]);
      RunsWordThenSpace(s, k, false);
      forall t | 0 <= t < m - k ensures IsSpace(s[k..][t]) {
      }
      RunsAfterSpaces(s[k..], m - k, false);
      assert s[k..][m - k..] == s[m..];
    }
  }

  /**
   * `split(/\s+/)` leaves an empty piece only at an end of the text, and
   * there exactly when that end is whitespace (or the text is empty).
   */
  lemma {:induction false} SplitPieceEnds(s: string)
    ensures forall k :: 0 < k < |SplitOnSpaces(s)| - 1 ==> SplitOnSpaces(s)[k] != []
    ensures SplitOnSpaces(s)[0] == [] <==> s == [] || IsSpace(s[0])
    ensures SplitOnSpaces(s)[|SplitOnSpaces(s)| - 1] == [] <==> s == [] || IsSpace(s[|s| - 1])
    decreases |s|
  {
    var k := FirstSpace(s);
    if k < |s| {
      var m := k + SpaceRunLen(s[k..]);
      var rest := SplitOnSpaces(s[m..]);
      SplitPieceEnds(s[m..]);
      assert SplitOnSpaces(s) == [s[..k]] + rest;
      if m == |s| {
        assert s[k..][m - k - 1] == s[|s| - 1];
      } else {
        assert s[k..][m - k] == s[m];
        assert s[m..][|s| - m - 1] == s[|s| - 1];
      }
    }
  }

  /** Removing leading whitespace keeps the words. */
  lemma {:induction false} TrimStartKeepsWords(s: string)
    ensures CountWords(TrimStart(s)) == CountWords(s)
    decreases |s|
  {
    if s != [] && IsSpace(s[0]) {
      TrimStartKeepsWords(s[1..]);
    }
  }

  /** Removing trailing whitespace keeps the words. */
  lemma {:induction false} TrimEndKeepsWords(s: string)
    ensures CountWords(TrimEnd(s)) == CountWords(s)
    decreases |s|
  {
    if s != [] && IsSpace(s[|s| - 1]) {
      var p := s[..|s| - 1];
      TrimEndKeepsWords(p);
      RunsBeforeSpace(p, s[|s| - 1], false);
      assert p + [s[|s| - 1]] == s;
    }
  }

  /** Leading, trailing and repeated whitespace of any kind makes no word. */
  lemma ExampleWords()
    ensures CountWords(" a\U{A0}\n\U{E9} ") == 2
  {
  }

  /** `wordCount` of a text with whitespace around and between its two words. */
  lemma ExampleWordCount(text: string)
    requires text == " a\U{A0}\n\U{E9} "
    ensures WordCount(text) == 2
  {
    ExampleWords();
  }

  /** A text has no words exactly when it is blank. */
  lemma {:induction false} NoWordsIffBlank(s: string)
    ensures CountWords(s) == 0 <==> IsBlank(s)
    decreases |s|
  {
    if s != [] {
      NoWordsIffBlank(s[1..]);
      if IsSpace(s[0]) {
        assert IsBlank(s) <==> IsBlank(s[1..]) by {
          if IsBlank(s[1..]) {
            forall k | 0 <= k < |s| ensures IsSpace(s[k]) {
              if k > 0 { assert s[k] == s[1..][k - 1]; }
            }
          }
        }
      }
    }
  }

  // ---------------------------------------------------------------------
  // What `translateText` sends
  // ---------------------------------------------------------------------

  datatype Option<T> = None | Some(value: T)

  const MooreTarget: string := "mos_Latn"
  const MaxChunkLength: nat := 80

  /** The JSON body posted to the translation service. */
  datatype TranslateRequest = TranslateRequest(text: string, srcLang: string, tgtLang: string, maxChunkLength: nat)

  /** Why a submission was refused (each reported to the user as an error toast). */
  datatype Rejection = EmptyText | OverLimit

  datatype Submission = Rejected(reason: Rejection) | Sent(request: TranslateRequest)

  /**
   * What the translation service answered: a JSON body with its
   * `translated_text` and `text` fields (None when absent), or a failure of
   * any kind (a network error, a status that is not ok, a body that is not
   * JSON).
   */
  datatype Reply = Answered(translatedText: Option<string>, text: Option<string>) | Failed

  /** A present, non-empty string: what `||` treats as truthy among strings. */
  predicate Truthy(field: Option<string>) {
    field.Some? && field.value != []
  }

  /**
   * `data.translated_text || data.text || ""`: the first truthy field, else
   * the empty text.
   */
  function Shown(translatedText: Option<string>, text: Option<string>): (r: string)
    ensures Truthy(translatedText) ==> r == translatedText.value
    ensures !Truthy(translatedText) && Truthy(text) ==> r == text.value
    ensures !Truthy(translatedText) && !Truthy(text) ==> r == []
    ensures r == [] <==> !Truthy(translatedText) && !Truthy(text)
  {
    if Truthy(translatedText) then translatedText.value
    else if Truthy(text) then text.value
    else []
  }

  /**
   * The text a reply leaves in the Mooré area that held `previous`: a
   * failure leaves it, and an answer replaces it, with the empty text exactly
   * when the answer carries no text in either field.
   */
  function AfterReply(previous: string, reply: Reply): (r: string)
    ensures reply.Failed? ==> r == previous
    ensures reply.Answered? ==> (r == [] <==> !Truthy(reply.translatedText) && !Truthy(reply.text))
    ensures reply.Answered? && Truthy(reply.translatedText) ==> r == reply.translatedText.value
    ensures reply.Answered? && !Truthy(reply.translatedText) && Truthy(reply.text) ==> r == reply.text.value
  {
    if reply.Answered? then Shown(reply.translatedText, reply.text) else previous
  }

  /**
   * Specification of the guards of `translateText`, in terms of words:
   * blank text is refused first, then text of more than 250 words; anything
   * else is sent, normalised, as French to be translated into Mooré.
   */
  function Expected(text: string): Submission {
    if IsBlank(text) then Rejected(EmptyText)
    else if CountWords(text) > WordLimit then Rejected(OverLimit)
    else Sent(TranslateRequest(PreprocessFrenchText(text), FrenchSource, MooreTarget, MaxChunkLength))
  }

  /** Blank text is refused as empty, even though it is also within the limit. */
  lemma BlankIsEmptyText(text: string)
    requires IsBlank(text)
    ensures Expected(text) == Rejected(EmptyText)
    ensures !IsOverLimit(text)
  {
    NoWordsIffBlank(text);
  }

  /** Exactly 250 words is accepted; the limit refuses only more. */
  lemma LimitIsInclusive(text: string)
    requires WordCount(text) == WordLimit
    ensures Expected(text).Sent?
  {
    NoWordsIffBlank(text);
  }

  /** A sent request is a French-source request carrying the normalised, untrimmed text. */
  lemma SentRequestIsFrench(text: string)
    requires Expected(text).Sent?
    ensures IsFrenchSource(Expected(text).request.srcLang)
    ensures !IsFrenchSource(Expected(text).request.tgtLang)
    ensures Expected(text).request.text == PreprocessFrenchText(text)
  {
  }

  /**
   * The translate button is enabled: not busy, some text, within the limit;
   * so an enabled button always has between 1 and 250 words behind it.
   */
  predicate TranslateEnabled(isTranslating: bool, text: string)
    ensures TranslateEnabled(isTranslating, text) ==> !isTranslating && 0 < WordCount(text) <= WordLimit
  {
    NoWordsIffBlank(text);
    !isTranslating && Trim(text) != [] && !IsOverLimit(text)
  }

  /**
   * The button's disabled state agrees with the guards of `translateText`:
   * when the page is idle, the button is enabled exactly for the texts that
   * would be sent, so neither guard's error is reachable from the button.
   */
  lemma EnabledExactlyWhenSent(text: string)
    ensures TranslateEnabled(false, text) <==> Expected(text).Sent?
    ensures !TranslateEnabled(true, text)
  {
  }

  // ---------------------------------------------------------------------
  // The page
  // ---------------------------------------------------------------------

  /** The state of the `BookTranslate` component and of its `localStorage` entry. */
  class BookTranslatePage {
    var frenchText: string
    var mooreText: string
    var isTranslating: bool
    var showScheduleDialog: bool
    /** `localStorage['scheduleNoticeSeenDate']`, None when absent. */
    var scheduleNoticeSeenDate: Option<string>

    /** A fresh page over whatever the browser has stored. */
    constructor (stored: Option<string>)
      ensures frenchText == [] && mooreText == []
      ensures !isTranslating && !showScheduleDialog
      ensures scheduleNoticeSeenDate == stored
    {
      frenchText := [];
      mooreText := [];
      isTranslating := false;
      showScheduleDialog := false;
      scheduleNoticeSeenDate := stored;
    }

    /** The load effect: show the schedule notice unless it was seen today. */
    method OnLoad(today: string)
      modifies this`showScheduleDialog
      ensures showScheduleDialog == (old(showScheduleDialog) || scheduleNoticeSeenDate != Some(today))
    {
      if scheduleNoticeSeenDate != Some(today) {
        showScheduleDialog := true;
      }
    }

    /** `handleScheduleDialogClose`: follow the dialog; closing it records today. */
    method HandleScheduleDialogClose(open: bool, today: string)
      modifies this`showScheduleDialog, this`scheduleNoticeSeenDate
      ensures showScheduleDialog == open
      ensures scheduleNoticeSeenDate == if open then old(scheduleNoticeSeenDate) else Some(today)
    {
      showScheduleDialog := open;
      if !open {
        scheduleNoticeSeenDate := Some(today);
      }
    }

    /** The text area's `onChange`. */
    method SetFrenchText(text: string)
      modifies this`frenchText
      ensures frenchText == text
    {
      frenchText := text;
    }

    /**
     * The synchronous part of `translateText`: the two guards, then
     * `isTranslating` is raised and the request is built.
     */
    method BeginTranslate() returns (submission: Submission)
      modifies this`isTranslating
      ensures submission == Expected(frenchText)
      ensures isTranslating == (submission.Sent? || old(isTranslating))
    {
      if Trim(frenchText) == [] {
        return Rejected(EmptyText);
      }
      if IsOverLimit(frenchText) {
        return Rejected(OverLimit);
      }
      isTranslating := true;
      var preprocessedText := PreprocessFrenchText(frenchText);
      submission := Sent(TranslateRequest(preprocessedText, FrenchSource, MooreTarget, MaxChunkLength));
    }

    /**
     * The rest of `translateText` once the service has answered: a
     * translation is shown, a failure leaves the old one, and `finally`
     * lowers `isTranslating` either way.
     */
    method CompleteTranslate(reply: Reply)
      modifies this`mooreText, this`isTranslating
      ensures mooreText == AfterReply(old(mooreText), reply)
      ensures !isTranslating
    {
      if reply.Answered? {
        mooreText := Shown(reply.translatedText, reply.text);
      }
      isTranslating := false;
    }

    /** `translateText` from start to end, the service's answer being reply. */
    method TranslateText(reply: Reply) returns (submission: Submission)
      modifies this`mooreText, this`isTranslating
      ensures submission == Expected(frenchText)
      ensures submission.Rejected? ==> isTranslating == old(isTranslating) && mooreText == old(mooreText)
      ensures submission.Sent? ==> !isTranslating
      ensures submission.Sent? ==> mooreText == AfterReply(old(mooreText), reply)
    {
      submission := BeginTranslate();
      if submission.Sent? {
        CompleteTranslate(reply);
      }
    }

    /** `clearText`: both text areas emptied. */
    method ClearText()
      modifies this`frenchText, this`mooreText
      ensures frenchText == [] && mooreText == []
    {
      frenchText := [];
      mooreText := [];
    }
  }

  // ---------------------------------------------------------------------
  // Sessions
  // ---------------------------------------------------------------------

  /**
   * The schedule notice is shown at most once a day: a page loaded on a day
   * the notice has not been closed shows it; once it is closed, a page
   * loaded later that day over the same storage does not.
   */
  method ScheduleNoticeOncePerDay(stored: Option<string>, today: string) returns (firstShown: bool, secondShown: bool)
    ensures firstShown == (stored != Some(today))
    ensures !secondShown
  {
    var page := new BookTranslatePage(stored);
    page.OnLoad(today);
    firstShown := page.showScheduleDialog;
    page.HandleScheduleDialogClose(false, today);
    var later := new BookTranslatePage(page.scheduleNoticeSeenDate);
    later.OnLoad(today);
    secondShown := later.showScheduleDialog;
  }

  /**
   * One translation on a fresh page: the flag is up exactly while a request
   * is out, down afterwards, and the Mooré text changes only on success.
   */
  method TranslationSession(text: string, reply: Reply)
    returns (submission: Submission, busyWhileSent: bool, busyAfter: bool, shown: string)
    ensures submission == Expected(text)
    ensures busyWhileSent == submission.Sent?
    ensures !busyAfter
    ensures shown == if submission.Sent? then AfterReply([], reply) else []
  {
    var page := new BookTranslatePage(None);
    page.SetFrenchText(text);
    submission := page.BeginTranslate();
    busyWhileSent := page.isTranslating;
    if submission.Sent? {
      page.CompleteTranslate(reply);
    }
    busyAfter := page.isTranslating;
    shown := page.mooreText;
  }

  /** Translating right after `clearText` is refused as empty, whatever was typed before. */
  method TranslateAfterClear(typed: string) returns (submission: Submission, shown: string)
    ensures submission == Rejected(EmptyText)
    ensures shown == []
  {
    var page := new BookTranslatePage(None);
    page.SetFrenchText(typed);
    page.ClearText();
    submission := page.BeginTranslate();
    shown := page.mooreText;
  }
}
