/** The persistent key state that the input handlers write and the player update reads. */
module Input {
  import opened Rules

  /** The application record, reduced to its keyboard table (one entry per
      scancode, non-zero while the key is held). */
  class App {
    const keyboard: array<int>

    ghost predicate Valid()
      reads this
    {
      keyboard.Length == MAX_KEYBOARD_KEYS
    }

    /** The zeroed application record the program starts from: no key is held. */
    constructor ()
      ensures Valid() && fresh(keyboard)
      ensures forall k :: 0 <= k < keyboard.Length ==> keyboard[k] == 0
    {
      keyboard := new int[MAX_KEYBOARD_KEYS](_ => 0);
    }

    /** Whether the key with scancode `code` is held. */
    function Held(code: nat): bool
      requires Valid() && code < MAX_KEYBOARD_KEYS
      reads this, keyboard
    {
      keyboard[code] != 0
    }

    /** A key-release event: clears the key's entry, unless the event is a key
        repeat or the scancode lies outside the table. */
    method DoKeyUp(repeat: nat, scancode: nat)
      requires Valid()
      modifies keyboard
      ensures Valid()
      ensures keyboard[..] == KeyEvent(old(keyboard[..]), repeat, scancode, 0)
    {
      if repeat == 0 && scancode < MAX_KEYBOARD_KEYS {
        keyboard[scancode] := 0;
      }
    }

    /** A key-press event: sets the key's entry to 1, under the same two conditions. */
    method DoKeyDown(repeat: nat, scancode: nat)
      requires Valid()
      modifies keyboard
      ensures Valid()
      ensures keyboard[..] == KeyEvent(old(keyboard[..]), repeat, scancode, 1)
    {
      if repeat == 0 && scancode < MAX_KEYBOARD_KEYS {
        keyboard[scancode] := 1;
      }
    }

    /** The event poll of one frame: presses and releases update the table in the
        order they arrive, other events are ignored, and a quit request ends the
        program at once (reported here as `quit`, with the events after it unread). */
    method DoInput(evs: seq<Event>) returns (quit: bool)
      requires Valid()
      modifies keyboard
      ensures Valid()
      ensures quit <==> Quit in evs
      ensures keyboard[..] == Events(old(keyboard[..]), evs)
    {
      var i := 0;
      while i < |evs|
        invariant i <= |evs| && Quit !in evs[..i]
        invariant Events(keyboard[..], evs[i..]) == Events(old(keyboard[..]), evs)
      {
        assert evs[..i + 1] == evs[..i] + [evs[i]];
        match evs[i] {
          case Quit =>
            return true;
          case KeyDown(repeat, scancode) =>
            DoKeyDown(repeat, scancode);
          case KeyUp(repeat, scancode) =>
            DoKeyUp(repeat, scancode);
          case Other =>
        }
        i := i + 1;
      }
      assert evs[..i] == evs;
      return false;
    }
  }

  /** An event the poll of `doInput` can return: a quit request, a key press, a
      key release, or any other event. */
  datatype Event = Quit | KeyDown(repeat: nat, scancode: nat) | KeyUp(repeat: nat, scancode: nat) | Other

  /** Whether some press or release in `evs` addresses the entry `code`. */
  predicate Addresses(evs: seq<Event>, code: nat)
  {
    exists i :: 0 <= i < |evs| && (evs[i].KeyDown? || evs[i].KeyUp?) && evs[i].scancode == code
  }

  /** The key table after the events of one poll, read up to the first quit
      request. An entry that no press or release addresses keeps its value. */
  function Events(keys: seq<int>, evs: seq<Event>): (r: seq<int>)
    ensures |r| == |keys|
    ensures forall k :: 0 <= k < |keys| && !Addresses(evs, k) ==> r[k] == keys[k]
    decreases |evs|
  {
    if evs == [] then keys
    else
      var rest := evs[1..];
      assert forall k :: Addresses(rest, k) ==> Addresses(evs, k) by {
        forall k | Addresses(rest, k) ensures Addresses(evs, k) {
          var i :| 0 <= i < |rest| && (rest[i].KeyDown? || rest[i].KeyUp?) && rest[i].scancode == k;
          assert evs[i + 1] == rest[i];
        }
      }
      match evs[0]
      case Quit => keys
      case KeyDown(repeat, scancode) => Events(KeyEvent(keys, repeat, scancode, 1), rest)
      case KeyUp(repeat, scancode) => Events(KeyEvent(keys, repeat, scancode, 0), rest)
      case Other => Events(keys, rest)
  }

  /** The polls of two stretches of events in a row, the first without a quit
      request, give the table of one poll of both. */
  lemma {:induction false} EventsAppend(keys: seq<int>, evs: seq<Event>, more: seq<Event>)
    requires Quit !in evs
    ensures Events(Events(keys, evs), more) == Events(keys, evs + more)
    decreases |evs|
  {
    if evs != [] {
      assert (evs + more)[1..] == evs[1..] + more;
      var next := match evs[0]
        case KeyDown(repeat, scancode) => KeyEvent(keys, repeat, scancode, 1)
        case KeyUp(repeat, scancode) => KeyEvent(keys, repeat, scancode, 0)
        case _ => keys;
      assert (evs + more)[0] == evs[0];
      assert Events(keys, evs) == Events(next, evs[1..]);
      assert Events(keys, evs + more) == Events(next, evs[1..] + more);
      EventsAppend(next, evs[1..], more);
    } else {
      assert evs + more == more;
    }
  }

  /** The key table after the polls of several frames, one element of `input`
      per frame. */
  function TableAfter(keys: seq<int>, input: seq<seq<Event>>): (r: seq<int>)
    ensures |r| == |keys|
    decreases |input|
  {
    if input == [] then keys else Events(TableAfter(keys, input[..|input| - 1]), input[|input| - 1])
  }

  /** The number of frames whose poll has no quit request before the first one
      that has: the frames the main loop completes. */
  function QuitFrame(input: seq<seq<Event>>): (n: nat)
    ensures n <= |input|
    ensures forall j :: 0 <= j < n ==> Quit !in input[j]
    ensures n < |input| ==> Quit in input[n]
    decreases |input|
  {
    if input == [] || Quit in input[0] then 0 else 1 + QuitFrame(input[1..])
  }

  /** The frames before the quitting one are those whose poll has no quit request. */
  lemma QuitFrameStep(input: seq<seq<Event>>, n: nat)
    requires n <= QuitFrame(input) && n < |input|
    ensures Quit in input[n] <==> n == QuitFrame(input)
  {
  }

  /** The effect of a key event on a key table, as a value: only the addressed entry
      can change, and only for a non-repeat event with an in-range scancode. */
  function KeyEvent(keys: seq<int>, repeat: nat, scancode: nat, value: int): (r: seq<int>)
    ensures |r| == |keys|
    ensures forall k :: 0 <= k < |keys| && k != scancode ==> r[k] == keys[k]
    ensures scancode < |keys| ==> r[scancode] == if repeat == 0 && scancode < MAX_KEYBOARD_KEYS then value else keys[scancode]
  {
    if repeat == 0 && scancode < MAX_KEYBOARD_KEYS && scancode < |keys| then keys[scancode := value] else keys
  }

  /** A press followed by a release of the same key leaves that key released and
      every other key as it was; repeat events change nothing. */
  lemma PressThenRelease(keys: seq<int>, scancode: nat, repeat: nat)
    requires |keys| == MAX_KEYBOARD_KEYS && scancode < MAX_KEYBOARD_KEYS
    ensures KeyEvent(KeyEvent(keys, 0, scancode, 1), 0, scancode, 0) == keys[scancode := 0]
    ensures KeyEvent(keys, 0, scancode, 1)[scancode] != 0
    ensures repeat != 0 ==> KeyEvent(keys, repeat, scancode, 1) == keys && KeyEvent(keys, repeat, scancode, 0) == keys
  {
  }
}
