// Menu navigation: a cursor over the three items New, Display and Delete,
// moved by the arrow keys' escape sequences (ESC '[' 'A' and ESC '[' 'B')
// and activated by Enter. Keystrokes are the bytes `getch` returns.

module Menu {

  const ENTER: int := 10
  const ESC: int := 27
  const BRACKET: int := 91
  const ARROW_UP: int := 65
  const ARROW_DOWN: int := 66

  /** The selected menu item, as an index into the three items. */
  type Cursor = p: int | 0 <= p < 3

  datatype MenuItem = New | Display | Delete

  function ItemAt(c: Cursor): MenuItem {
    if c == 0 then New else if c == 1 then Display else Delete
  }

  /** Up arrow: one item up, from the first item round to the last. */
  function Up(c: Cursor): (r: Cursor)
    ensures r == if c == 0 then 2 else c - 1
  {
    (c - 1 + 3) % 3
  }

  /** Down arrow: one item down, from the last item round to the first. */
  function Down(c: Cursor): (r: Cursor)
    ensures r == if c == 2 then 0 else c + 1
  {
    (c + 1) % 3
  }

  /** How much of an arrow-key escape sequence has been read. */
  datatype Decoder = Idle | SawEscape | SawBracket

  /** The menu loop's state: the decoder, the cursor and the items activated
      by Enter so far, in order. */
  datatype MenuState = MenuState(decoder: Decoder, cursor: Cursor, activated: seq<MenuItem>)

  const START := MenuState(Idle, 0, [])

  /** One keystroke. In an escape sequence, a byte that does not continue it
      is consumed and dropped; outside one, any byte but ESC and Enter is
      ignored. */
  function Feed(st: MenuState, b: int): MenuState {
    match st.decoder
    case Idle =>
      if b == ESC then st.(decoder := SawEscape)
      else if b == ENTER then st.(activated := st.activated + [ItemAt(st.cursor)])
      else st
    case SawEscape =>
      if b == BRACKET then st.(decoder := SawBracket) else st.(decoder := Idle)
    case SawBracket =>
      if b == ARROW_UP then MenuState(Idle, Up(st.cursor), st.activated)
      else if b == ARROW_DOWN then MenuState(Idle, Down(st.cursor), st.activated)
      else st.(decoder := Idle)
  }

  function FeedAll(st: MenuState, keys: seq<int>): MenuState
    decreases |keys|
  {
    if keys == [] then st else FeedAll(Feed(st, keys[0]), keys[1..])
  }

  /** The state reached from the initial menu after `keys`. */
  function Machine(keys: seq<int>): MenuState {
    FeedAll(START, keys)
  }

  lemma {:induction false} FeedAllAppend(st: MenuState, a: seq<int>, b: seq<int>)
    ensures FeedAll(st, a + b) == FeedAll(FeedAll(st, a), b)
    decreases |a|
  {
    if a == [] {
      assert a + b == b;
    } else {
      assert (a + b)[0] == a[0];
      assert (a + b)[1..] == a[1..] + b;
      FeedAllAppend(Feed(st, a[0]), a[1..], b);
    }
  }

  lemma FeedAllAt(st: MenuState, keys: seq<int>, i: nat)
    requires i < |keys|
    ensures FeedAll(st, keys[i..]) == FeedAll(Feed(st, keys[i]), keys[i + 1..])
  {
  }

  /** Feeding a short sequence is feeding its bytes one after another. */
  lemma FeedAllThree(st: MenuState, x: int, y: int, z: int)
    ensures FeedAll(st, [x, y]) == Feed(Feed(st, x), y)
    ensures FeedAll(st, [x, y, z]) == Feed(Feed(Feed(st, x), y), z)
  {
    var s1, s2, s3 := Feed(st, x), Feed(Feed(st, x), y), Feed(Feed(Feed(st, x), y), z);
    assert [x, y][1..] == [y] && [y][1..] == [];
    assert FeedAll(s2, []) == s2;
    assert FeedAll(s1, [y]) == FeedAll(s2, []);
    assert [x, y, z][1..] == [y, z] && [y, z][1..] == [z] && [z][1..] == [];
    assert FeedAll(s3, []) == s3;
    assert FeedAll(s2, [z]) == FeedAll(s3, []);
    assert FeedAll(s1, [y, z]) == FeedAll(s2, [z]);
  }

  /** ESC '[' 'A' from the idle decoder moves the cursor up and nothing else. */
  lemma ArrowUpMovesUp(keys: seq<int>)
    requires Machine(keys).decoder == Idle
    ensures Machine(keys + [ESC, BRACKET, ARROW_UP]) == Machine(keys).(cursor := Up(Machine(keys).cursor))
  {
    FeedAllAppend(START, keys, [ESC, BRACKET, ARROW_UP]);
    FeedAllThree(Machine(keys), ESC, BRACKET, ARROW_UP);
  }

  /** ESC '[' 'B' from the idle decoder moves the cursor down and nothing else. */
  lemma ArrowDownMovesDown(keys: seq<int>)
    requires Machine(keys).decoder == Idle
    ensures Machine(keys + [ESC, BRACKET, ARROW_DOWN]) == Machine(keys).(cursor := Down(Machine(keys).cursor))
  {
    FeedAllAppend(START, keys, [ESC, BRACKET, ARROW_DOWN]);
    FeedAllThree(Machine(keys), ESC, BRACKET, ARROW_DOWN);
  }

  /** Three down arrows bring the cursor back to where it was. */
  lemma ThreeDownsReturn(keys: seq<int>)
    requires Machine(keys).decoder == Idle
    ensures Machine(keys + [ESC, BRACKET, ARROW_DOWN] + [ESC, BRACKET, ARROW_DOWN] + [ESC, BRACKET, ARROW_DOWN])
            == Machine(keys)
  {
    var down := [ESC, BRACKET, ARROW_DOWN];
    ArrowDownMovesDown(keys);
    ArrowDownMovesDown(keys + down);
    ArrowDownMovesDown(keys + down + down);
  }

  /** Enter from the idle decoder activates the item under the cursor. */
  lemma EnterActivates(keys: seq<int>)
    requires Machine(keys).decoder == Idle
    ensures Machine(keys + [ENTER])
            == Machine(keys).(activated := Machine(keys).activated + [ItemAt(Machine(keys).cursor)])
  {
    FeedAllAppend(START, keys, [ENTER]);
  }

  /** ESC followed by anything but '[' is dropped whole, whatever that byte is. */
  lemma SecondByteDiscarded(keys: seq<int>, b: int)
    requires Machine(keys).decoder == Idle
    requires b != BRACKET
    ensures Machine(keys + [ESC, b]) == Machine(keys)
  {
    FeedAllAppend(START, keys, [ESC, b]);
    FeedAllThree(Machine(keys), ESC, b, b);
  }

  /** ESC '[' followed by anything but 'A' or 'B' is dropped whole. */
  lemma ThirdByteDiscarded(keys: seq<int>, b: int)
    requires Machine(keys).decoder == Idle
    requires b != ARROW_UP && b != ARROW_DOWN
    ensures Machine(keys + [ESC, BRACKET, b]) == Machine(keys)
  {
    FeedAllAppend(START, keys, [ESC, BRACKET, b]);
    FeedAllThree(Machine(keys), ESC, BRACKET, b);
  }

  /** Outside an escape sequence, a byte other than ESC and Enter is ignored. */
  lemma OtherByteIgnored(keys: seq<int>, b: int)
    requires Machine(keys).decoder == Idle
    requires b != ESC && b != ENTER
    ensures Machine(keys + [b]) == Machine(keys)
  {
    FeedAllAppend(START, keys, [b]);
  }

  /** The key loop of the program: reads one byte; on ESC reads a second and,
      when it is '[', a third, and moves the cursor on 'A' or 'B'; on Enter
      records the item under the cursor as activated. Stops when the bytes run
      out, also in the middle of an escape sequence. */
  method RunMenu(keys: seq<int>) returns (cursor: Cursor, activated: seq<MenuItem>)
    ensures cursor == Machine(keys).cursor
    ensures activated == Machine(keys).activated
  {
    cursor, activated := 0, [];
    var i := 0;
    assert keys[0..] == keys;
    while i < |keys|
      invariant 0 <= i <= |keys|
      invariant FeedAll(MenuState(Idle, cursor, activated), keys[i..]) == Machine(keys)
    {
      var ch := keys[i];
      FeedAllAt(MenuState(Idle, cursor, activated), keys, i);
      i := i + 1;
      if ch == ESC {
        if i == |keys| {
          return;
        }
        ch := keys[i];
        FeedAllAt(MenuState(SawEscape, cursor, activated), keys, i);
        i := i + 1;
        if ch == BRACKET {
          if i == |keys| {
            return;
          }
          ch := keys[i];
          FeedAllAt(MenuState(SawBracket, cursor, activated), keys, i);
          i := i + 1;
          if ch == ARROW_UP {
            cursor := Up(cursor);
          } else if ch == ARROW_DOWN {
            cursor := Down(cursor);
          }
        }
      } else if ch == ENTER {
        activated := activated + [ItemAt(cursor)];
      }
    }
  }
}
