/** The records that travel from the Windows-side broker to the native X11
    helper, with the constants both programs share. */
module InputTypes {

  type Word = x: int | 0 <= x < 0x1_0000
  type Dword = x: int | 0 <= x < 0x1_0000_0000

  const MAXDWORD: Dword := 0xFFFF_FFFF
  const MAX_EVENTS := 2048

  /** A flag word, as the set of its one-bit masks. */
  type Flags = set<int>

  // Masks of a keyboard event's flag word.
  const KEYEVENTF_EXTENDED := 1
  const KEYEVENTF_KEYUP := 2
  const KEYEVENTF_UNICODE := 4
  const KEYEVENTF_SCANCODE := 8

  const X11_INPUT_KEYBOARD := 1
  const X11_INPUT_MOUSE := 2
  const X11_INPUT_TEXT := 3

  const VK_BACK := 0x08
  const VK_TAB := 0x09
  const VK_RETURN := 0x0D
  const VK_SHIFT := 0x10
  const VK_CONTROL := 0x11
  const VK_MENU := 0x12

  const BACKSPACE: Word := 0x08
  const TAB: Word := 0x09
  const LF: Word := 0x0A
  const CR: Word := 0x0D

  predicate HighSurrogate(unit: int) { 0xD800 <= unit <= 0xDBFF }

  predicate LowSurrogate(unit: int) { 0xDC00 <= unit <= 0xDFFF }

  /** One entry of a SendInput array. */
  datatype Input =
    | Keyboard(vk: Word, scan: Word, flags: Flags)
    | Mouse(mouseFlags: Flags, dx: int, dy: int, mouseData: Dword)
    | Hardware
  {
    predicate Unicode() { Keyboard? && KEYEVENTF_UNICODE in flags }

    predicate KeyUp() { Keyboard? && KEYEVENTF_KEYUP in flags }

    predicate UnicodePress() { Unicode() && !KeyUp() }
  }

  /** One event of a request to the helper. */
  datatype Event = Event(kind: Dword, flags: Flags, x: int, y: int, data: Dword, vk: Word, scan: Word) {
    predicate KeyUp() { KEYEVENTF_KEYUP in flags }
  }

  function TextEvent(unit: Word): Event {
    Event(X11_INPUT_TEXT, {}, 0, 0, unit, 0, 0)
  }
}
