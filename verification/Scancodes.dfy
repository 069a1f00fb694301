/** What a stream of scancodes means: modifier keys, and the characters of the other keys. */
module Scancodes {
  type Code = x: int | 0 <= x < 256

  const NUL := '\0'

  // scancodes 0 to 57, row by row; the tables are zero from there on, but for the keypad's minus and plus
  const PLAIN := "\0\U{1B}1234567890-=\U{8}" + "\tqwertyuiop[]\n" + "\0asdfghjkl;'`" + "\0\\zxcvbnm,./\0" + "*\0 "
  const SHIFTED := "\0\U{1B}!@#$%^&*()_+\U{8}" + "\tQWERTYUIOP{}\n" + "\0ASDFGHJKL:\"~" + "\0|ZXCVBNM<>?\0" + "*\0 "

  lemma TableSizes()
    ensures |PLAIN| == |SHIFTED| == 58
  {
  }

  /** `scancode_to_ascii` and `scancode_to_ascii_shift`. */
  function Ascii(shifted: bool, k: Code): char {
    TableSizes();
    if k < 58 then if shifted then SHIFTED[k] else PLAIN[k]
    else if k == 0x4A then '-'
    else if k == 0x4E then '+'
    else NUL
  }

  datatype Modifiers = Modifiers(shift: bool, caps: bool) {
    function After(k: Code): Modifiers {
      if k == 0x2A || k == 0x36 then this.(shift := true)
      else if k == 0xAA || k == 0xB6 then this.(shift := false)
      else if k == 0x3A then this.(caps := !caps)
      else this
    }

    /** The character of a key press; NUL for modifiers, releases and keys without one. */
    function Char(k: Code): char {
      if k in {0x2A, 0x36, 0xAA, 0xB6, 0x3A} || k >= 0x80 then NUL else Ascii(shift || caps, k)
    }
  }

  /** The modifiers after a stream of scancodes. */
  function State(ks: seq<Code>): Modifiers {
    if ks == [] then Modifiers(false, false) else State(ks[..|ks| - 1]).After(ks[|ks| - 1])
  }

  /** The characters a stream of scancodes produces. */
  function Typed(ks: seq<Code>): seq<char> {
    if ks == [] then []
    else
      var c := State(ks[..|ks| - 1]).Char(ks[|ks| - 1]);
      Typed(ks[..|ks| - 1]) + if c == NUL then [] else [c]
  }

  function Presses(ks: seq<Code>, k: Code): nat {
    if ks == [] then 0 else Presses(ks[..|ks| - 1], k) + if ks[|ks| - 1] == k then 1 else 0
  }

  /** Caps lock is on exactly after an odd number of presses. */
  lemma {:induction false} CapsIsParity(ks: seq<Code>)
    ensures State(ks).caps <==> Presses(ks, 0x3A) % 2 == 1
  {
    if ks != [] {
      CapsIsParity(ks[..|ks| - 1]);
    }
  }

  predicate ShiftPress(k: Code) { k == 0x2A || k == 0x36 }
  predicate ShiftRelease(k: Code) { k == 0xAA || k == 0xB6 }

  /** Shift is on exactly when some shift key was pressed and neither was released since. */
  lemma {:induction false} ShiftIsHeld(ks: seq<Code>)
    ensures State(ks).shift <==>
            exists i :: 0 <= i < |ks| && ShiftPress(ks[i]) && forall j :: i < j < |ks| ==> !ShiftRelease(ks[j])
  {
    if ks != [] {
      var init, n := ks[..|ks| - 1], |ks| - 1;
      ShiftIsHeld(init);
      assert forall i :: 0 <= i < n ==> init[i] == ks[i];
      if ShiftPress(ks[n]) {
        assert State(ks).shift;
      } else if State(init).shift && !ShiftRelease(ks[n]) {
        var i :| 0 <= i < n && ShiftPress(init[i]) && forall j :: i < j < n ==> !ShiftRelease(init[j]);
        assert ShiftPress(ks[i]);
      } else if !State(ks).shift {
        forall i | 0 <= i < |ks| && ShiftPress(ks[i]) ensures exists j :: i < j < |ks| && ShiftRelease(ks[j]) {
          if !ShiftRelease(ks[n]) {
            assert ShiftPress(init[i]);
            var j :| i < j < n && ShiftRelease(init[j]);
            assert ShiftRelease(ks[j]);
          }
        }
      }
    }
  }

  // ----- what the keys mean

  // the rows of the keyboard, as scancodes number them

  lemma DigitRow(i: nat)
    requires i < 10
    ensures PLAIN[2 + i] == "1234567890"[i] && SHIFTED[2 + i] == "!@#$%^&*()"[i]
  {
  }

  lemma TopRow(i: nat)
    requires i < 10
    ensures PLAIN[16 + i] == "qwertyuiop"[i] && SHIFTED[16 + i] == "QWERTYUIOP"[i]
  {
  }

  lemma HomeRow(i: nat)
    requires i < 9
    ensures PLAIN[30 + i] == "asdfghjkl"[i] && SHIFTED[30 + i] == "ASDFGHJKL"[i]
  {
  }

  lemma BottomRow(i: nat)
    requires i < 7
    ensures PLAIN[44 + i] == "zxcvbnm"[i] && SHIFTED[44 + i] == "ZXCVBNM"[i]
  {
  }

  lemma SpaceAndEnter()
    ensures PLAIN[57] == SHIFTED[57] == ' ' && PLAIN[28] == SHIFTED[28] == '\n'
  {
  }

  predicate LetterKey(k: Code) {
    16 <= k < 26 || 30 <= k < 39 || 44 <= k < 51
  }

  /** The small letter is in the one table, its capital in the other. */
  predicate Cased(k: Code)
    requires k < 58
  {
    TableSizes();
    'a' <= PLAIN[k] <= 'z' && SHIFTED[k] as int == PLAIN[k] as int - 32
  }

  lemma TopCased(k: Code)
    requires 16 <= k < 26
    ensures Cased(k)
  {
    TopRow(k - 16);
    TopLetters(k - 16);
  }

  lemma TopLetters(i: nat)
    requires i < 10
    ensures 'a' <= "qwertyuiop"[i] <= 'z' && "QWERTYUIOP"[i] as int == "qwertyuiop"[i] as int - 32
  {
  }

  lemma HomeCased(k: Code)
    requires 30 <= k < 39
    ensures Cased(k)
  {
    HomeRow(k - 30);
    HomeLetters(k - 30);
  }

  lemma HomeLetters(i: nat)
    requires i < 9
    ensures 'a' <= "asdfghjkl"[i] <= 'z' && "ASDFGHJKL"[i] as int == "asdfghjkl"[i] as int - 32
  {
  }

  lemma BottomCased(k: Code)
    requires 44 <= k < 51
    ensures Cased(k)
  {
    BottomRow(k - 44);
    BottomLetters(k - 44);
  }

  lemma BottomLetters(i: nat)
    requires i < 7
    ensures 'a' <= "zxcvbnm"[i] <= 'z' && "ZXCVBNM"[i] as int == "zxcvbnm"[i] as int - 32
  {
  }

  lemma LetterCases(k: Code)
    requires LetterKey(k)
    ensures Cased(k)
  {
    if k < 26 {
      TopCased(k);
    } else if k < 39 {
      HomeCased(k);
    } else {
      BottomCased(k);
    }
  }

  /** Some shift key was pressed and none released since. */
  ghost predicate Held(ks: seq<Code>) {
    exists i :: 0 <= i < |ks| && ShiftPress(ks[i]) && forall j :: i < j < |ks| ==> !ShiftRelease(ks[j])
  }

  predicate Typing(k: Code) {
    (1 <= k < 58 && k != 0x1D && k != 0x2A && k != 0x36 && k != 0x38) || k == 0x4A || k == 0x4E
  }

  /** Neither table has a character for `k`, or both have. */
  predicate Blank(k: Code)
    requires k < 58
  {
    TableSizes();
    PLAIN[k] == NUL && SHIFTED[k] == NUL
  }

  predicate Filled(k: Code)
    requires k < 58
  {
    TableSizes();
    PLAIN[k] != NUL && SHIFTED[k] != NUL
  }

  lemma UpperTable(k: Code)
    requires k < 29
    ensures if Typing(k) then Filled(k) else Blank(k)
  {
  }

  lemma LowerTable(k: Code)
    requires 29 <= k < 58
    ensures if Typing(k) then Filled(k) else Blank(k)
  {
  }

  /** Which scancodes type a character at all: no release and no modifier does. */
  lemma TypingKeys(m: Modifiers, k: Code)
    ensures m.Char(k) != NUL <==> Typing(k)
  {
    if k < 29 {
      UpperTable(k);
    } else if k < 58 {
      LowerTable(k);
    }
  }

  /**
   After any stream of scancodes, a key of the table, letter or not, types its upper character
   exactly when a shift key is held or caps lock was pressed an odd number of times, and otherwise
   its lower one.  The keypad's minus and plus do not care.
   */
  lemma TypesUpper(ks: seq<Code>, k: Code)
    requires Typing(k)
    ensures k < 58 ==>
              State(ks).Char(k) == if Held(ks) || Presses(ks, 0x3A) % 2 == 1 then SHIFTED[k] else PLAIN[k]
    ensures k == 0x4A ==> State(ks).Char(k) == '-'
    ensures k == 0x4E ==> State(ks).Char(k) == '+'
  {
    ShiftIsHeld(ks);
    CapsIsParity(ks);
  }

  /** For a letter key that is the capital or the small letter. */
  lemma CapitalsExactly(ks: seq<Code>, k: Code)
    requires LetterKey(k)
    ensures var c := State(ks).Char(k);
            if Held(ks) || Presses(ks, 0x3A) % 2 == 1 then 'A' <= c <= 'Z' else 'a' <= c <= 'z'
  {
    LetterCases(k);
    TypesUpper(ks, k);
  }
}
