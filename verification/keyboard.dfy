/** Scancode set 1 decoding with a shift flag, as done by the kernel's keyboard driver. */
module Keyboard {
  import opened Common

  const LEFT_SHIFT: Byte := 0x2A
  const RIGHT_SHIFT: Byte := 0x36
  const RELEASED: Byte := 0x80
  const TABLE_SIZE: nat := 128

  // The listed entries of both tables, one keyboard row at a time (ESC is 0x1B,
  // backspace 0x08); together they cover scancodes 0x00 to 0x3A.
  const NUMBER_ROW: string := "\0\U{1B}1234567890-=\U{8}\t"
  const NUMBER_ROW_SHIFTED: string := "\0\U{1B}!@#$%^&*()_+\U{8}\t"
  const TOP_ROW: string := "qwertyuiop[]\n\0"
  const TOP_ROW_SHIFTED: string := "QWERTYUIOP{}\n\0"
  const HOME_ROW: string := "asdfghjkl;'`\0\\"
  const HOME_ROW_SHIFTED: string := "ASDFGHJKL:\"~\0|"
  const BOTTOM_ROW: string := "zxcvbnm,./\0*\0 \0"
  const BOTTOM_ROW_SHIFTED: string := "ZXCVBNM<>?\0*\0 \0"

  const UNSHIFTED_KEYS: string := NUMBER_ROW + TOP_ROW + HOME_ROW + BOTTOM_ROW
  const SHIFTED_KEYS: string := NUMBER_ROW_SHIFTED + TOP_ROW_SHIFTED + HOME_ROW_SHIFTED + BOTTOM_ROW_SHIFTED

  /** A table padded with zeros to its declared 128 entries. */
  function Padded(keys: string): (t: string)
    requires |keys| <= TABLE_SIZE
    ensures |t| == TABLE_SIZE
    ensures forall i :: |keys| <= i < TABLE_SIZE ==> t[i] == '\0'
    ensures t[..|keys|] == keys
  {
    keys + seq(TABLE_SIZE - |keys|, _ => '\0')
  }

  const UNSHIFTED: string := Padded(UNSHIFTED_KEYS)
  const SHIFTED: string := Padded(SHIFTED_KEYS)

  predicate IsShiftKey(code: int) {
    code == LEFT_SHIFT as int || code == RIGHT_SHIFT as int
  }

  /**
   * One call of `keyboard_getchar` after the scancode is read: the character produced
   * (NUL for none) and the new shift state.
   */
  function GetChar(scancode: Byte, shift: bool): (r: (char, bool))
    ensures scancode >= RELEASED ==> r.0 == '\0'
    ensures scancode >= RELEASED ==> (r.1 <==> shift && !IsShiftKey(scancode - RELEASED))
    ensures scancode < RELEASED && IsShiftKey(scancode) ==> r == ('\0', true)
    ensures scancode < RELEASED && !IsShiftKey(scancode) ==>
      r.1 == shift && r.0 == (if shift then SHIFTED else UNSHIFTED)[scancode]
  {
    if scancode >= RELEASED then
      var released := scancode - RELEASED;
      if IsShiftKey(released) then ('\0', false) else ('\0', shift)
    else if IsShiftKey(scancode) then ('\0', true)
    else
      var table := if shift then SHIFTED else UNSHIFTED;
      (table[scancode], shift)
  }

  /** Both shift keys have no character of their own in either table. */
  lemma ShiftKeysUnmapped()
    ensures UNSHIFTED[LEFT_SHIFT] == '\0' && UNSHIFTED[RIGHT_SHIFT] == '\0'
    ensures SHIFTED[LEFT_SHIFT] == '\0' && SHIFTED[RIGHT_SHIFT] == '\0'
  {
    assert UNSHIFTED[..|UNSHIFTED_KEYS|] == UNSHIFTED_KEYS && SHIFTED[..|SHIFTED_KEYS|] == SHIFTED_KEYS;
    assert UNSHIFTED_KEYS[LEFT_SHIFT] == HOME_ROW[LEFT_SHIFT - |NUMBER_ROW + TOP_ROW|];
    assert SHIFTED_KEYS[LEFT_SHIFT] == HOME_ROW_SHIFTED[LEFT_SHIFT - |NUMBER_ROW + TOP_ROW|];
    assert UNSHIFTED_KEYS[RIGHT_SHIFT] == BOTTOM_ROW[RIGHT_SHIFT - |NUMBER_ROW + TOP_ROW + HOME_ROW|];
    assert SHIFTED_KEYS[RIGHT_SHIFT] == BOTTOM_ROW_SHIFTED[RIGHT_SHIFT - |NUMBER_ROW + TOP_ROW + HOME_ROW|];
  }

  /** Keys beyond the listed entries (0x3B and up) produce nothing. */
  lemma UnlistedKeysUnmapped(scancode: Byte, shift: bool)
    requires |UNSHIFTED_KEYS| <= scancode < RELEASED
    ensures GetChar(scancode, shift).0 == '\0'
  {
  }

  function ToUpper(c: char): char
    requires 'a' <= c <= 'z'
  {
    (c as int - 'a' as int + 'A' as int) as char
  }

  /** Position by position, `shifted` holds the capital of every small letter of `plain`. */
  predicate Capitalises(plain: string, shifted: string) {
    |plain| == |shifted| &&
    forall j :: 0 <= j < |plain| && 'a' <= plain[j] <= 'z' ==> shifted[j] == ToUpper(plain[j])
  }

  lemma CapitalisesConcat(p1: string, s1: string, p2: string, s2: string)
    requires Capitalises(p1, s1) && Capitalises(p2, s2)
    ensures Capitalises(p1 + p2, s1 + s2)
  {
    forall j | 0 <= j < |p1 + p2| && 'a' <= (p1 + p2)[j] <= 'z'
      ensures (s1 + s2)[j] == ToUpper((p1 + p2)[j])
    {
      if j >= |p1| {
        assert (p1 + p2)[j] == p2[j - |p1|];
      }
    }
  }

  /** Row by row, the listed shifted entries capitalise the listed unshifted ones. */
  lemma KeysCapitalise()
    ensures Capitalises(UNSHIFTED_KEYS, SHIFTED_KEYS)
  {
    assert Capitalises(NUMBER_ROW, NUMBER_ROW_SHIFTED);
    assert Capitalises(TOP_ROW, TOP_ROW_SHIFTED);
    assert Capitalises(HOME_ROW, HOME_ROW_SHIFTED);
    assert Capitalises(BOTTOM_ROW, BOTTOM_ROW_SHIFTED);
    CapitalisesConcat(NUMBER_ROW, NUMBER_ROW_SHIFTED, TOP_ROW, TOP_ROW_SHIFTED);
    CapitalisesConcat(NUMBER_ROW + TOP_ROW, NUMBER_ROW_SHIFTED + TOP_ROW_SHIFTED, HOME_ROW, HOME_ROW_SHIFTED);
    CapitalisesConcat(NUMBER_ROW + TOP_ROW + HOME_ROW, NUMBER_ROW_SHIFTED + TOP_ROW_SHIFTED + HOME_ROW_SHIFTED,
                      BOTTOM_ROW, BOTTOM_ROW_SHIFTED);
  }

  /** Wherever the unshifted table has a small letter, the shifted table has its capital. */
  lemma ShiftedLettersAreCapitals(i: nat)
    requires i < TABLE_SIZE && 'a' <= UNSHIFTED[i] <= 'z'
    ensures SHIFTED[i] == ToUpper(UNSHIFTED[i])
  {
    KeysCapitalise();
    assert UNSHIFTED[..|UNSHIFTED_KEYS|] == UNSHIFTED_KEYS && SHIFTED[..|SHIFTED_KEYS|] == SHIFTED_KEYS;
    if i < |UNSHIFTED_KEYS| {
      assert UNSHIFTED[i] == UNSHIFTED_KEYS[i] && SHIFTED[i] == SHIFTED_KEYS[i];
    }
  }

  /** Feeds scancodes through the decoder, keeping the characters that are not NUL. */
  function Typed(scancodes: seq<Byte>, shift: bool): (r: (string, bool))
    ensures forall i :: 0 <= i < |r.0| ==> r.0[i] != '\0'
    decreases |scancodes|
  {
    if |scancodes| == 0 then ([], shift)
    else
      var (c, shift') := GetChar(scancodes[0], shift);
      var (rest, final) := Typed(scancodes[1..], shift');
      (if c == '\0' then rest else [c] + rest, final)
  }

  /**
   * Holding either shift key around a letter key gives the capital, and after the
   * release the same key gives the small letter again.
   */
  lemma ShiftHeldThenReleased(key: Byte, shiftKey: Byte)
    requires key < RELEASED && 'a' <= UNSHIFTED[key] <= 'z'
    requires IsShiftKey(shiftKey)
    ensures Typed([shiftKey, key, shiftKey + RELEASED, key], false)
      == ([ToUpper(UNSHIFTED[key]), UNSHIFTED[key]], false)
  {
    ShiftedLettersAreCapitals(key as nat);
    ShiftKeysUnmapped();
    assert !IsShiftKey(key);
    var release: Byte := shiftKey + RELEASED;
    assert Typed([], false) == ([], false);
    assert Typed([key], false) == ([UNSHIFTED[key]], false) by {
      assert [key][1..] == [];
      assert GetChar(key, false) == (UNSHIFTED[key], false);
      assert [UNSHIFTED[key]] + [] == [UNSHIFTED[key]];
    }
    assert Typed([release, key], true) == ([UNSHIFTED[key]], false) by {
      assert [release, key][1..] == [key];
    }
    assert Typed([key, release, key], true) == ([SHIFTED[key], UNSHIFTED[key]], false) by {
      assert [key, release, key][1..] == [release, key];
      assert GetChar(key, true) == (SHIFTED[key], true);
      assert SHIFTED[key] != '\0';
      assert [SHIFTED[key]] + [UNSHIFTED[key]] == [SHIFTED[key], UNSHIFTED[key]];
    }
    assert [shiftKey, key, release, key][1..] == [key, release, key];
  }
}
