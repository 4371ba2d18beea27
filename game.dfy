/** The puzzle list, the game flow and the admin panel: the module-level
    state `currentPuzzles`, `puzzleIdx` and `isAdminLoggedIn` of script.js
    and the handlers that update it, with the browser's storage slot for
    the list as one more field. */
module Game {
  import opened Js
  import opened Wrappers
  import opened Cipher

  /** One puzzle: the answer, the key it is shown under, and a hint. */
  datatype Puzzle = Puzzle(text: string, shift: int, hint: string)

  /** What a level shows: its 1-based number, the hint and the code. */
  datatype Screen = Screen(levelNum: int, hint: string, code: string)

  /** The admin secret, compared in plain text (a cosmetic gate only). */
  const AdminPassword: string := "123"

  const WrongPassword: string := "Senha Incorreta"

  /** The puzzle seeded when nothing is stored. */
  const DefaultPuzzle: Puzzle := Puzzle("FUTURO", 3, "Ainda não aconteceu")

  /** The screen of the puzzle at index `idx`. */
  function ScreenFor(p: Puzzle, idx: nat): (r: Screen)
    ensures r.levelNum == idx + 1 && r.hint == p.hint
    ensures |r.code| == |p.text|
  {
    Screen(idx + 1, p.hint, Encrypt(p.text, p.shift))
  }

  /** With a non-negative key the code a level shows decodes back to the
      puzzle's answer. */
  lemma {:induction false} ScreenDecodes(p: Puzzle, idx: nat)
    requires p.shift >= 0
    ensures Encrypt(ScreenFor(p, idx).code, 26 - p.shift % 26) == p.text
  {
    EncryptRoundTrip(p.text, p.shift);
  }

  /** An answer as `checkAnswer` and `savePuzzle` read it: upper-cased, then
      trimmed. The result has no lower-case letter and no surrounding white
      space. */
  function Canonical(s: string): (r: string)
    ensures forall i :: 0 <= i < |r| ==> !IsLower(r[i])
    ensures r == [] || (!IsWhite(r[0]) && !IsWhite(r[|r| - 1]))
  {
    TrimNoLower(ToUpper(s));
    Trim(ToUpper(s))
  }

  /** Whether an input is accepted as the answer `expected`. */
  predicate AnswerMatches(input: string, expected: string) {
    Canonical(input) == expected
  }

  /** An answer already in canonical form reads as itself: typing a stored
      answer exactly is accepted. */
  lemma {:induction false} CanonicalFixed(s: string)
    requires forall i :: 0 <= i < |s| ==> !IsLower(s[i])
    requires s == [] || (!IsWhite(s[0]) && !IsWhite(s[|s| - 1]))
    ensures Canonical(s) == s
  {
    assert ToUpper(s) == s;
    TrimUnpadded(s);
  }

  /** Reading an answer twice gives what reading it once gave. */
  lemma {:induction false} CanonicalIdempotent(s: string)
    ensures Canonical(Canonical(s)) == Canonical(s)
  {
    var y := ToUpper(s);
    var a, b := TrimSlice(y);
    ToUpperSlice(y, a, b);
    ToUpperIdempotent(s);
    TrimUnpadded(Canonical(s));
  }

  /** A stored answer that is not in canonical form (lower-case letters or
      surrounding spaces, which only a hand-edited store can hold) is never
      accepted, whatever is typed. */
  lemma {:induction false} NonCanonicalNeverMatches(input: string, expected: string)
    requires Canonical(expected) != expected
    ensures !AnswerMatches(input, expected)
  {
    if AnswerMatches(input, expected) {
      CanonicalIdempotent(input);
    }
  }

  /** White space typed around an answer never changes whether it is
      accepted. */
  lemma {:induction false} PaddingIgnored(p: string, input: string, q: string, expected: string)
    requires AllWhite(p) && AllWhite(q)
    ensures AnswerMatches(p + input + q, expected) == AnswerMatches(input, expected)
  {
    ToUpperAppend(p + input, q);
    ToUpperAppend(p, input);
    TrimPadding(ToUpper(p), ToUpper(input), ToUpper(q));
  }

  /** The letter case of the typed input never changes whether it is
      accepted. */
  lemma {:induction false} CaseIgnored(input: string, expected: string)
    ensures AnswerMatches(ToUpper(input), expected) == AnswerMatches(input, expected)
  {
    ToUpperIdempotent(input);
  }

  /** `updatePreview`: the code the admin sees while typing an answer and a
      shift; an unparsable shift field counts as 0. The answer is upper-cased
      but not trimmed. */
  function Preview(answer: string, shiftField: Option<int>): (r: string)
    ensures |r| == |answer|
    ensures shiftField.None? ==> r == ToUpper(answer)
  {
    EncryptZero(ToUpper(answer));
    Encrypt(ToUpper(answer), shiftField.GetOr(0))
  }

  /** Up to surrounding white space, the preview is exactly the code the
      saved puzzle will show on its level, for every shift. */
  lemma {:induction false} PreviewShowsLevelCode(answer: string, shift: int)
    ensures Trim(Preview(answer, Some(shift))) == ScreenFor(Puzzle(Canonical(answer), shift, ""), 0).code
  {
    EncryptTrim(ToUpper(answer), shift);
  }

  /** With a non-negative shift the preview decodes back to the typed answer;
      with an unparsable shift it is the answer itself. */
  lemma {:induction false} PreviewDecodes(answer: string, shift: int)
    requires shift >= 0
    ensures Encrypt(Preview(answer, Some(shift)), 26 - shift % 26) == ToUpper(answer)
    ensures Preview(answer, None) == ToUpper(answer)
  {
    EncryptRoundTrip(ToUpper(answer), shift);
    EncryptZero(ToUpper(answer));
  }

  /** Where `Array.prototype.splice(i, 1)` starts: a negative index counts
      from the end, and the start is clamped into [0, len]. */
  function SpliceStart(i: int, len: nat): (k: nat)
    ensures k <= len
  {
    if i < 0 then (if len + i < 0 then 0 else len + i) else if i < len then i else len
  }

  /** The list left by `splice(i, 1)`: the entry at the start position is
      removed and the others keep their order; nothing is removed when the
      start is past the end. */
  function Splice<T>(s: seq<T>, i: int): (r: seq<T>)
    ensures SpliceStart(i, |s|) == |s| ==> r == s
    ensures SpliceStart(i, |s|) < |s| ==>
              |r| == |s| - 1 &&
              (forall j :: 0 <= j < SpliceStart(i, |s|) ==> r[j] == s[j]) &&
              (forall j :: SpliceStart(i, |s|) <= j < |r| ==> r[j] == s[j + 1]) &&
              multiset(r) + multiset{s[SpliceStart(i, |s|)]} == multiset(s)
  {
    var k := SpliceStart(i, |s|);
    if k < |s| then
      assert s == s[..k] + [s[k]] + s[k + 1..];
      s[..k] + s[k + 1..]
    else s
  }

  /** The game session. */
  class Session {
    var puzzles: seq<Puzzle>
    var puzzleIdx: nat
    var isAdminLoggedIn: bool
    /** The single storage key holding the list; `None` when absent. */
    var storage: Option<seq<Puzzle>>

    /** The current index points at a puzzle whenever there is one. */
    ghost predicate Valid()
      reads this
    {
      puzzleIdx < |puzzles| || puzzleIdx == 0
    }

    /** A page load: the initial globals, then `loadPuzzles` and `loadLevel`
        over what the storage slot `saved` holds. */
    constructor (saved: Option<seq<Puzzle>>)
      ensures puzzles == if saved.Some? then saved.value else [DefaultPuzzle]
      ensures storage == Some(puzzles)
      ensures puzzleIdx == 0 && !isAdminLoggedIn
      ensures Valid()
    {
      puzzles, puzzleIdx, isAdminLoggedIn, storage := [], 0, false, saved;
      new;
      LoadPuzzles();
      var _ := LoadLevel();
    }

    /** `loadPuzzles`: takes the stored list when there is one, otherwise
        seeds the default puzzle and stores it. */
    method LoadPuzzles()
      requires puzzleIdx == 0
      modifies this
      ensures puzzles == if old(storage).Some? then old(storage).value else [DefaultPuzzle]
      ensures storage == Some(puzzles)
      ensures puzzleIdx == old(puzzleIdx) && isAdminLoggedIn == old(isAdminLoggedIn)
      ensures Valid()
    {
      if storage.Some? {
        puzzles := storage.value;
      } else {
        puzzles := [DefaultPuzzle];
        storage := Some(puzzles);
      }
    }

    /** `loadLevel`: with no puzzle it does nothing; otherwise an index past
        the end goes back to 0 and the current puzzle's screen is shown. */
    method LoadLevel() returns (shown: Option<Screen>)
      modifies this`puzzleIdx
      ensures |puzzles| == 0 ==> shown == None && puzzleIdx == old(puzzleIdx)
      ensures |puzzles| > 0 ==>
                puzzleIdx == (if old(puzzleIdx) >= |puzzles| then 0 else old(puzzleIdx)) &&
                puzzleIdx < |puzzles| &&
                shown == Some(ScreenFor(puzzles[puzzleIdx], puzzleIdx))
      ensures old(Valid()) ==> Valid()
      ensures |puzzles| > 0 ==> Valid()
    {
      if |puzzles| == 0 {
        return None;
      }
      if puzzleIdx >= |puzzles| {
        puzzleIdx := 0;
      }
      shown := Some(ScreenFor(puzzles[puzzleIdx], puzzleIdx));
    }

    /** `checkAnswer`: the typed input, upper-cased and trimmed, must equal
        the current puzzle's answer exactly. */
    method CheckAnswer(input: string) returns (correct: bool)
      requires Valid() && |puzzles| > 0
      ensures correct <==> AnswerMatches(input, puzzles[puzzleIdx].text)
    {
      var ans := Canonical(input);
      correct := ans == puzzles[puzzleIdx].text;
    }

    /** `nextLevel`: the index advances by one and wraps from the last
        puzzle to the first, then the level is shown. */
    method NextLevel() returns (shown: Option<Screen>)
      requires |puzzles| > 0
      modifies this`puzzleIdx
      ensures puzzleIdx == (old(puzzleIdx) + 1) % |puzzles|
      ensures old(puzzleIdx) == |puzzles| - 1 ==> puzzleIdx == 0
      ensures old(puzzleIdx) < |puzzles| - 1 ==> puzzleIdx == old(puzzleIdx) + 1
      ensures shown == Some(ScreenFor(puzzles[puzzleIdx], puzzleIdx))
      ensures Valid()
    {
      puzzleIdx := (puzzleIdx + 1) % |puzzles|;
      shown := LoadLevel();
    }

    /** `verifyAdminLogin`: an exact match with the secret logs the admin in
        and clears the error; anything else shows the error and leaves the
        flag as it was. */
    method VerifyAdminLogin(password: string) returns (error: string)
      modifies this`isAdminLoggedIn
      ensures isAdminLoggedIn == (old(isAdminLoggedIn) || password == AdminPassword)
      ensures error == if password == AdminPassword then "" else WrongPassword
    {
      if password == AdminPassword {
        isAdminLoggedIn := true;
        error := "";
      } else {
        error := WrongPassword;
      }
    }

    /** `savePuzzle`: the answer is read upper-cased and trimmed; when it and
        the hint are both non-empty, exactly one puzzle is appended and the
        list is stored, otherwise nothing changes. */
    method SavePuzzle(answer: string, shift: int, hint: string) returns (saved: bool)
      modifies this`puzzles, this`storage
      ensures saved <==> Canonical(answer) != [] && hint != []
      ensures saved ==> puzzles == old(puzzles) + [Puzzle(Canonical(answer), shift, hint)] && storage == Some(puzzles)
      ensures !saved ==> puzzles == old(puzzles) && storage == old(storage)
      ensures old(Valid()) ==> Valid()
    {
      var t := Trim(ToUpper(answer));
      if t != [] && hint != [] {
        puzzles := puzzles + [Puzzle(t, shift, hint)];
        storage := Some(puzzles);
        saved := true;
      } else {
        saved := false;
      }
    }

    /** `deletePuzzle`: once confirmed, the entry at `i` is spliced out and
        the list stored; the index goes back to 0 only when it is at or past
        the new end, and the level is shown again. Unconfirmed, nothing
        changes. */
    method DeletePuzzle(i: int, confirmed: bool) returns (shown: Option<Screen>)
      modifies this`puzzles, this`storage, this`puzzleIdx
      ensures !confirmed ==> shown == None && puzzles == old(puzzles) && storage == old(storage) && puzzleIdx == old(puzzleIdx)
      ensures confirmed ==> puzzles == Splice(old(puzzles), i) && storage == Some(puzzles)
      ensures confirmed ==> puzzleIdx == if old(puzzleIdx) >= |puzzles| then 0 else old(puzzleIdx)
      ensures confirmed ==> shown == if |puzzles| == 0 then None else Some(ScreenFor(puzzles[puzzleIdx], puzzleIdx))
      ensures confirmed ==> Valid()
      ensures old(Valid()) ==> Valid()
    {
      if !confirmed {
        return None;
      }
      puzzles := Splice(puzzles, i);
      storage := Some(puzzles);
      if puzzleIdx >= |puzzles| {
        puzzleIdx := 0;
      }
      shown := LoadLevel();
    }

    /** `clearStorage`: once confirmed, the storage slot is emptied and the
        page reloads, which starts a new session over the empty slot: it
        holds just the default puzzle. Unconfirmed, nothing changes. */
    method ClearStorage(confirmed: bool) returns (next: Session)
      modifies this`storage
      ensures !confirmed ==> next == this && storage == old(storage)
      ensures confirmed ==> storage == None && fresh(next)
      ensures confirmed ==> next.puzzles == [DefaultPuzzle] && next.storage == Some([DefaultPuzzle])
      ensures confirmed ==> next.puzzleIdx == 0 && !next.isAdminLoggedIn
    {
      if !confirmed {
        return this;
      }
      storage := None;
      next := new Session(None);
    }
  }

  /** The code shown for the answer CHAVE under key 5. */
  lemma ChaveCode()
    ensures Encrypt("CHAVE", 5) == "HMFAJ"
  {
    var c := Encrypt("CHAVE", 5);
    assert c[0] == Letter(7) && c[1] == Letter(12) && c[2] == Letter(5) && c[3] == Letter(0) && c[4] == Letter(9);
  }

  /** The level screens of a two-puzzle store and a login attempt. */
  method Scenario() {
    var s := new Session(Some([Puzzle("CHAVE", 5, "h1"), Puzzle("SENHA", 1, "h2")]));
    var shown := s.LoadLevel();
    ChaveCode();
    assert shown == Some(Screen(1, "h1", "HMFAJ"));
    var err := s.VerifyAdminLogin("1234");
    assert !s.isAdminLoggedIn && err == WrongPassword;
    err := s.VerifyAdminLogin("123");
    assert s.isAdminLoggedIn && err == "";
  }
}
