/**
 * The voice-command logic of public/voice.js with the SpeechRecognition callbacks stripped off:
 * the transcript similarity rule, number extraction, the priority-ordered command classifier
 * with its global debounce, and the filter a final transcript passes before it is handled.
 * Transcripts arrive already lower-cased and trimmed, as `final.toLowerCase().trim()` leaves them;
 * times are the `Date.now()` milliseconds of the calls.
 */
module Voice {
  import opened Wrappers

  /** Minimum gap between two handled transcripts (DEBOUNCE_MS). */
  const DebounceMs := 1200

  /** Window in which a similar transcript counts as a repeat (DUPLICATE_WINDOW_MS). */
  const DuplicateWindowMs := 2500

  /** The keys of NUMBER_WORDS in declaration order; the word at index k stands for k + 1. */
  const NumberWords: seq<string> := ["one", "two", "three", "four", "five", "six", "seven", "eight", "nine"]

  /** The one-word commands the filter lets through. */
  const KnownShort: seq<string> := ["up", "down", "left", "right", "clear", "delete", "remove", "solve", "reset", "new", "start"]

  function Min(x: int, y: int): int {
    if x < y then x else y
  }

  function Max(x: int, y: int): int {
    if x < y then y else x
  }

  function Abs(x: int): nat {
    if x < 0 then -x else x
  }

  /** sub occurs in s starting at index i. */
  predicate OccursAt(s: string, sub: string, i: int) {
    0 <= i && i + |sub| <= |s| && s[i..i + |sub|] == sub
  }

  /** JavaScript's `s.includes(sub)`: sub occurs in s at some position. */
  predicate Contains(s: string, sub: string) {
    exists i :: 0 <= i <= |s| - |sub| && OccursAt(s, sub, i)
  }

  // ---------------------------------------------------------------------
  // similarEnough

  /** Number of positions below n at which a and b differ. */
  function Mismatches(a: string, b: string, n: nat): nat
    requires n <= |a| && n <= |b|
  {
    if n == 0 then 0 else Mismatches(a, b, n - 1) + (if a[n - 1] != b[n - 1] then 1 else 0)
  }

  /**
   * The similarity rule: never for an empty string; always for equal strings or when one contains
   * the other; otherwise only for lengths at most 2 apart, when the positional mismatches over
   * the shorter length plus the length difference are at most 2.
   */
  predicate Similar(a: string, b: string) {
    if a == "" || b == "" then false
    else if a == b || Contains(a, b) || Contains(b, a) then true
    else Abs(|a| - |b|) <= 2 && Mismatches(a, b, Min(|a|, |b|)) + Abs(|a| - |b|) <= 2
  }

  /** similarEnough: the mismatch count is kept in a loop counter. */
  method SimilarEnough(a: string, b: string) returns (similar: bool)
    ensures a == "" || b == "" ==> !similar
    ensures a != "" && b != "" && (a == b || Contains(a, b) || Contains(b, a)) ==> similar
    ensures similar == Similar(a, b)
  {
    if a == "" || b == "" {
      return false;
    }
    if a == b {
      return true;
    }
    if Contains(a, b) || Contains(b, a) {
      return true;
    }
    if Abs(|a| - |b|) <= 2 {
      var diff := 0;
      var L := Min(|a|, |b|);
      for i := 0 to L
        invariant diff == Mismatches(a, b, i)
      {
        if a[i] != b[i] {
          diff := diff + 1;
        }
      }
      diff := diff + Abs(|a| - |b|);
      return diff <= 2;
    }
    return false;
  }

  lemma {:induction false} MismatchesSymmetric(a: string, b: string, n: nat)
    requires n <= |a| && n <= |b|
    ensures Mismatches(a, b, n) == Mismatches(b, a, n)
  {
    if n > 0 {
      MismatchesSymmetric(a, b, n - 1);
    }
  }

  /** The rule does not depend on which transcript comes first. */
  lemma SimilarSymmetric(a: string, b: string)
    ensures Similar(a, b) == Similar(b, a)
  {
    MismatchesSymmetric(a, b, Min(|a|, |b|));
  }

  /** Every non-empty transcript is similar to itself, and two transcripts of very different
   *  lengths are similar only when one contains the other. */
  lemma SimilarBounds(a: string, b: string)
    ensures a != "" ==> Similar(a, a)
    ensures Abs(|a| - |b|) > 2 ==> (Similar(a, b) <==> a != "" && b != "" && (Contains(a, b) || Contains(b, a)))
  {
    if a != "" {
      assert OccursAt(a, a, 0);
    }
  }

  // ---------------------------------------------------------------------
  // parseNumberFromText

  /** A word character of regular expressions: ASCII letter, digit or underscore. */
  predicate IsWordChar(ch: char) {
    'a' <= ch <= 'z' || 'A' <= ch <= 'Z' || '0' <= ch <= '9' || ch == '_'
  }

  /** `\b([1-9])\b` matches at i: a digit 1-9 with no word character on either side. */
  predicate StandaloneDigitAt(t: string, i: int) {
    && 0 <= i < |t|
    && '1' <= t[i] <= '9'
    && (i == 0 || !IsWordChar(t[i - 1]))
    && (i + 1 == |t| || !IsWordChar(t[i + 1]))
  }

  function DigitValue(ch: char): int {
    ch as int - '0' as int
  }

  /** The first index at or after `from` where a standalone digit stands. */
  function FirstStandaloneDigit(t: string, from: nat): (i: Option<nat>)
    ensures i.Some? ==> from <= i.value && StandaloneDigitAt(t, i.value)
    ensures i.Some? ==> forall k :: from <= k < i.value ==> !StandaloneDigitAt(t, k)
    ensures i.None? ==> forall k :: from <= k ==> !StandaloneDigitAt(t, k)
    decreases |t| - from
  {
    if from >= |t| then None
    else if StandaloneDigitAt(t, from) then Some(from)
    else FirstStandaloneDigit(t, from + 1)
  }

  /** The value of the first number word, in declaration order from index k, that t contains. */
  function FirstNumberWord(t: string, k: nat): (n: Option<int>)
    requires k <= 9
    ensures n.Some? ==> k < n.value <= 9 && Contains(t, NumberWords[n.value - 1])
    ensures n.Some? ==> forall j :: k <= j < n.value - 1 ==> !Contains(t, NumberWords[j])
    ensures n.None? ==> forall j :: k <= j < 9 ==> !Contains(t, NumberWords[j])
    decreases 9 - k
  {
    if k == 9 then None
    else if Contains(t, NumberWords[k]) then Some(k + 1)
    else FirstNumberWord(t, k + 1)
  }

  /** What parseNumberFromText extracts: the first standalone digit, else the first number word. */
  function NumberIn(t: string): (n: Option<int>)
    ensures n.Some? ==> 1 <= n.value <= 9
  {
    match FirstStandaloneDigit(t, 0)
    case Some(i) => Some(DigitValue(t[i]))
    case None => FirstNumberWord(t, 0)
  }

  /**
   * parseNumberFromText: a value in 1..9 or nothing. The first standalone digit wins; without
   * one, the first number word in declaration order that occurs anywhere, even inside a word.
   */
  method ParseNumberFromText(text: string) returns (n: Option<int>)
    ensures n == NumberIn(text)
    ensures n.Some? ==> 1 <= n.value <= 9
    ensures forall i :: StandaloneDigitAt(text, i) && (forall k :: 0 <= k < i ==> !StandaloneDigitAt(text, k)) ==>
      n == Some(DigitValue(text[i]))
    ensures (forall i :: !StandaloneDigitAt(text, i)) ==>
      (n.Some? <==> exists j :: 0 <= j < 9 && Contains(text, NumberWords[j]))
  {
    var i := 0;
    while i < |text|
      invariant 0 <= i <= |text|
      invariant FirstStandaloneDigit(text, 0) == FirstStandaloneDigit(text, i)
    {
      if StandaloneDigitAt(text, i) {
        return Some(DigitValue(text[i]));
      }
      i := i + 1;
    }
    for k := 0 to 9
      invariant FirstNumberWord(text, 0) == FirstNumberWord(text, k)
    {
      if Contains(text, NumberWords[k]) {
        return Some(k + 1);
      }
    }
    return None;
  }

  // ---------------------------------------------------------------------
  // The command dispatch of handleFinalTranscript

  /** What a handled transcript asks the board to do. */
  datatype Command =
    | Move(row: int, col: int)
    | ClearCell
    | NewPuzzle
    | SolvePuzzle
    | Place(n: int)
    | Unrecognized

  /**
   * The dispatch, first match wins: up, down, left, right (moving the selection (row, col) by one
   * and clamping to 0..8), then clear/delete/remove, then new game/new puzzle/reset, then solve,
   * then a number, and otherwise nothing recognised.
   */
  function Classify(t: string, row: int, col: int): Command {
    if Contains(t, "up") then Move(Max(0, row - 1), col)
    else if Contains(t, "down") then Move(Min(8, row + 1), col)
    else if Contains(t, "left") then Move(row, Max(0, col - 1))
    else if Contains(t, "right") then Move(row, Min(8, col + 1))
    else if Contains(t, "clear") || Contains(t, "delete") || Contains(t, "remove") then ClearCell
    else if Contains(t, "new game") || Contains(t, "new puzzle") || Contains(t, "reset") then NewPuzzle
    else if Contains(t, "solve") then SolvePuzzle
    else match NumberIn(t)
      case Some(n) => Place(n)
      case None => Unrecognized
  }

  /** A move keeps a selection on the board and changes one coordinate by at most one. */
  lemma MovesStayOnBoard(t: string, row: int, col: int)
    requires 0 <= row < 9 && 0 <= col < 9
    ensures Classify(t, row, col).Move? ==>
      var m := Classify(t, row, col);
      && 0 <= m.row < 9 && 0 <= m.col < 9
      && (m.row == row || m.col == col)
      && Abs(m.row - row) <= 1 && Abs(m.col - col) <= 1
  {
  }

  /** A number is placed only when no command word occurs, and it is a digit 1..9. */
  lemma NumbersComeLast(t: string, row: int, col: int)
    ensures Classify(t, row, col).Place? <==>
      && NumberIn(t).Some?
      && !Contains(t, "up") && !Contains(t, "down") && !Contains(t, "left") && !Contains(t, "right")
      && !Contains(t, "clear") && !Contains(t, "delete") && !Contains(t, "remove")
      && !Contains(t, "new game") && !Contains(t, "new puzzle") && !Contains(t, "reset")
      && !Contains(t, "solve")
    ensures Classify(t, row, col).Place? ==> 1 <= Classify(t, row, col).n <= 9
  {
  }

  /** The global debounce: a call within DebounceMs of the previous one (if any) does nothing. */
  predicate Debounced(lastHandledAt: int, now: int) {
    lastHandledAt != 0 && now - lastHandledAt < DebounceMs
  }

  /**
   * Which of a run of handleFinalTranscript calls at the given times act, starting from the
   * given previous timestamp: every call, acting or not, becomes the new previous timestamp.
   * This is the run of VoiceState.HandleFinalTranscript step by step: its ensures give
   * `cmd.None? <==> Debounced(old(lastHandledAt), now)` and `lastHandledAt == now`, which are
   * the head of the list and the timestamp passed on to the rest.
   */
  function HandledRun(lastHandledAt: int, times: seq<int>): (acts: seq<bool>)
    ensures |acts| == |times|
    decreases |times|
  {
    if times == [] then []
    else [!Debounced(lastHandledAt, times[0])] + HandledRun(times[0], times[1..])
  }

  /**
   * Because suppressed calls refresh the timestamp, a burst of calls each less than DebounceMs
   * after the previous one acts only once, however long the burst lasts in total.
   */
  lemma {:induction false} BurstActsOnce(lastHandledAt: int, times: seq<int>)
    requires |times| > 0 && !Debounced(lastHandledAt, times[0])
    requires forall k :: 0 <= k < |times| ==> times[k] > 0
    requires forall k :: 0 < k < |times| ==> times[k] - times[k - 1] < DebounceMs
    ensures HandledRun(lastHandledAt, times) == [true] + seq(|times| - 1, _ => false)
  {
    SuppressedAll(times[0], times[1..]);
  }

  lemma {:induction false} SuppressedAll(last: int, times: seq<int>)
    requires last > 0
    requires forall k :: 0 <= k < |times| ==> times[k] > 0
    requires |times| > 0 ==> times[0] - last < DebounceMs
    requires forall k :: 0 < k < |times| ==> times[k] - times[k - 1] < DebounceMs
    ensures HandledRun(last, times) == seq(|times|, _ => false)
    decreases |times|
  {
    if times != [] {
      SuppressedAll(times[0], times[1..]);
    }
  }

  // ---------------------------------------------------------------------
  // The final-transcript filter of recognition.onresult

  /** A character that `\s` matches in JavaScript. */
  predicate IsSpace(ch: char) {
    || ch == ' ' || ch == '\t' || ch == '\n' || ch == '\r' || ch == '\U{b}' || ch == '\U{c}'
    || ch == '\U{a0}' || ch == '\U{1680}' || '\U{2000}' <= ch <= '\U{200a}'
    || ch == '\U{2028}' || ch == '\U{2029}' || ch == '\U{202f}' || ch == '\U{205f}'
    || ch == '\U{3000}' || ch == '\U{feff}'
  }

  /** `t.split(/\s+/).filter(Boolean).length`: the number of maximal runs of non-space characters. */
  function WordCount(t: string): nat {
    if t == [] then 0
    else WordCount(t[..|t| - 1]) + (if !IsSpace(t[|t| - 1]) && (|t| == 1 || IsSpace(t[|t| - 2])) then 1 else 0)
  }

  lemma {:induction false} WordCountPrefix(t: string, k: nat)
    requires k <= |t|
    ensures WordCount(t[..k]) <= WordCount(t)
    decreases |t|
  {
    if k < |t| {
      assert t[..|t| - 1][..k] == t[..k];
      WordCountPrefix(t[..|t| - 1], k);
    } else {
      assert t[..k] == t;
    }
  }

  lemma {:induction false} NoSpaceIsOneWord(t: string)
    requires t != [] && forall i :: 0 <= i < |t| ==> !IsSpace(t[i])
    ensures WordCount(t) == 1
  {
    if |t| > 1 {
      NoSpaceIsOneWord(t[..|t| - 1]);
    } else {
      assert t[..0] == [];
    }
  }

  lemma {:induction false} WordAfterSpace(t: string, j: nat)
    requires j + 1 < |t| && IsSpace(t[j]) && !IsSpace(t[|t| - 1])
    ensures WordCount(t) >= WordCount(t[..j + 1]) + 1
    decreases |t|
  {
    var u := t[..|t| - 1];
    if IsSpace(t[|t| - 2]) {
      WordCountPrefix(u, j + 1);
      assert u[..j + 1] == t[..j + 1];
    } else {
      assert u[j] == t[j] && u[|u| - 1] == t[|t| - 2];
      WordAfterSpace(u, j);
      assert u[..j + 1] == t[..j + 1];
    }
  }

  /** A trimmed transcript is a single word exactly when it holds no whitespace. */
  lemma TrimmedSingleWord(t: string)
    requires t != [] && !IsSpace(t[0]) && !IsSpace(t[|t| - 1])
    ensures WordCount(t) == 1 <==> forall i :: 0 <= i < |t| ==> !IsSpace(t[i])
  {
    if forall i :: 0 <= i < |t| ==> !IsSpace(t[i]) {
      NoSpaceIsOneWord(t);
    } else {
      var j :| 0 <= j < |t| && IsSpace(t[j]);
      assert 0 < j < |t| - 1;
      WordAfterSpace(t, j);
      assert t[..j + 1][..1] == [t[0]];
      WordCountPrefix(t[..j + 1], 1);
      NoSpaceIsOneWord([t[0]]);
    }
  }

  /** isSingleNumber: one character matching `\d`, or exactly a number word. */
  predicate IsSingleNumber(t: string) {
    (|t| == 1 && '0' <= t[0] <= '9') || t in NumberWords
  }

  /** The filter's last test: a single word that is neither a number nor a known short command. */
  predicate IgnoredSingleWord(t: string) {
    WordCount(t) == 1 && !IsSingleNumber(t) && !(t in KnownShort)
  }

  /**
   * The module state the voice handlers share: the processing flag, the last accepted transcript
   * and its time, and handleFinalTranscript's own last-handled time (0 while unset, which is how
   * JavaScript's falsy test treats it).
   */
  class VoiceState {
    var processing: bool
    var lastTranscript: string
    var lastTranscriptAt: int
    var lastHandledAt: int

    constructor ()
      ensures !processing && lastTranscript == "" && lastTranscriptAt == 0 && lastHandledAt == 0
    {
      processing := false;
      lastTranscript := "";
      lastTranscriptAt := 0;
      lastHandledAt := 0;
    }

    /** The onresult filter's verdict on transcript t arriving at time now, in the current state. */
    predicate Admits(t: string, now: int)
      reads this
    {
      && t != ""
      && !processing
      && !(Similar(t, lastTranscript) && now - lastTranscriptAt < DuplicateWindowMs)
      && !IgnoredSingleWord(t)
    }

    /**
     * The filter a final transcript passes in onresult: it is dropped when empty, while a
     * transcript is being processed, when similar to the last accepted one within
     * DuplicateWindowMs, or when it is a single word that is not a number or known command.
     * An accepted transcript starts processing and becomes the last one.
     */
    method AcceptFinal(t: string, now: int) returns (accepted: bool)
      modifies this
      ensures accepted <==> old(Admits(t, now))
      ensures accepted ==> processing && lastTranscript == t && lastTranscriptAt == now
      ensures !accepted ==> processing == old(processing) && lastTranscript == old(lastTranscript) && lastTranscriptAt == old(lastTranscriptAt)
      ensures lastHandledAt == old(lastHandledAt)
    {
      if t == "" {
        return false;
      }
      if processing {
        return false;
      }
      var similar := SimilarEnough(t, lastTranscript);
      if similar && now - lastTranscriptAt < DuplicateWindowMs {
        return false;
      }
      var words := WordCount(t);
      var isSingleNumber := (|t| == 1 && '0' <= t[0] <= '9') || t in NumberWords;
      var isKnownShort := words == 1 && t in KnownShort;
      if words == 1 && !isSingleNumber && !isKnownShort {
        return false;
      }
      processing := true;
      lastTranscript := t;
      lastTranscriptAt := now;
      return true;
    }

    /**
     * handleFinalTranscript: unless debounced, classifies the transcript against the current
     * selection (row, col). The call time always becomes the last-handled time.
     */
    method HandleFinalTranscript(t: string, now: int, row: int, col: int) returns (cmd: Option<Command>)
      modifies this
      ensures cmd.None? <==> Debounced(old(lastHandledAt), now)
      ensures cmd.Some? ==> cmd.value == Classify(t, row, col)
      ensures lastHandledAt == now
      ensures processing == old(processing) && lastTranscript == old(lastTranscript) && lastTranscriptAt == old(lastTranscriptAt)
    {
      if lastHandledAt != 0 && now - lastHandledAt < DebounceMs {
        lastHandledAt := now;
        return None;
      }
      lastHandledAt := now;
      if Contains(t, "up") {
        return Some(Move(Max(0, row - 1), col));
      }
      if Contains(t, "down") {
        return Some(Move(Min(8, row + 1), col));
      }
      if Contains(t, "left") {
        return Some(Move(row, Max(0, col - 1)));
      }
      if Contains(t, "right") {
        return Some(Move(row, Min(8, col + 1)));
      }
      if Contains(t, "clear") || Contains(t, "delete") || Contains(t, "remove") {
        return Some(ClearCell);
      }
      if Contains(t, "new game") || Contains(t, "new puzzle") || Contains(t, "reset") {
        return Some(NewPuzzle);
      }
      if Contains(t, "solve") {
        return Some(SolvePuzzle);
      }
      var n := ParseNumberFromText(t);
      if n.Some? {
        return Some(Place(n.value));
      }
      return Some(Unrecognized);
    }

    /**
     * A final result end to end: the filter, then (for an accepted transcript) the awaited
     * handler at time handledAt, then processing ends. Handling runs to completion inside the
     * callback, so no later callback ever finds processing set.
     */
    method OnFinalResult(t: string, now: int, handledAt: int, row: int, col: int) returns (cmd: Option<Command>)
      requires !processing
      modifies this
      ensures !processing
      ensures cmd.Some? <==> old(Admits(t, now)) && !Debounced(old(lastHandledAt), handledAt)
      ensures cmd.Some? ==> cmd.value == Classify(t, row, col)
      ensures old(Admits(t, now)) ==> lastTranscript == t && lastTranscriptAt == now && lastHandledAt == handledAt
      ensures !old(Admits(t, now)) ==>
        lastTranscript == old(lastTranscript) && lastTranscriptAt == old(lastTranscriptAt) && lastHandledAt == old(lastHandledAt)
    {
      var accepted := AcceptFinal(t, now);
      if !accepted {
        return None;
      }
      cmd := HandleFinalTranscript(t, handledAt, row, col);
      processing := false;
    }
  }
}
