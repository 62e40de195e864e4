/** Tracking modifier keys in key logs (src/guaclog/state.c, keydef.c). */
module KeyState {

  const MAX_KEYS: nat := 256

  /** An entry of the table of known keys. */
  datatype Key = Key(keysym: int, modifier: bool)

  const EDITING_KEYS: seq<Key> := [
    Key(0xFE03, true), Key(0xFF08, false), Key(0xFF09, false), Key(0xFF0B, false), Key(0xFF0D, false),
    Key(0xFF13, false), Key(0xFF14, false), Key(0xFF15, false), Key(0xFF1B, false), Key(0xFF50, false),
    Key(0xFF51, false), Key(0xFF52, false), Key(0xFF53, false), Key(0xFF54, false), Key(0xFF55, false),
    Key(0xFF56, false), Key(0xFF57, false), Key(0xFF63, false), Key(0xFF65, false), Key(0xFF6A, false),
    Key(0xFF7F, false)
  ]

  const KEYPAD_KEYS: seq<Key> := [
    Key(0xFF80, false), Key(0xFF8D, false), Key(0xFF95, false), Key(0xFF96, false), Key(0xFF97, false),
    Key(0xFF98, false), Key(0xFF99, false), Key(0xFF9A, false), Key(0xFF9B, false), Key(0xFF9C, false),
    Key(0xFF9E, false), Key(0xFFAA, false), Key(0xFFAB, false), Key(0xFFAD, false), Key(0xFFAE, false),
    Key(0xFFAF, false), Key(0xFFB0, false), Key(0xFFB1, false), Key(0xFFB2, false), Key(0xFFB3, false),
    Key(0xFFB4, false), Key(0xFFB5, false), Key(0xFFB6, false), Key(0xFFB7, false), Key(0xFFB8, false),
    Key(0xFFB9, false)
  ]

  const FUNCTION_KEYS: seq<Key> := [
    Key(0xFFBE, false), Key(0xFFBF, false), Key(0xFFC0, false), Key(0xFFC1, false), Key(0xFFC2, false),
    Key(0xFFC3, false), Key(0xFFC4, false), Key(0xFFC5, false), Key(0xFFC6, false), Key(0xFFC7, false),
    Key(0xFFC8, false), Key(0xFFC9, false), Key(0xFFCA, false), Key(0xFFCB, false), Key(0xFFCC, false),
    Key(0xFFCD, false), Key(0xFFCE, false), Key(0xFFCF, false), Key(0xFFD0, false), Key(0xFFD1, false),
    Key(0xFFD2, false), Key(0xFFD3, false), Key(0xFFD4, false), Key(0xFFD5, false)
  ]

  const MODIFIER_KEYS: seq<Key> := [
    Key(0xFFE1, true), Key(0xFFE2, true), Key(0xFFE3, true), Key(0xFFE4, true), Key(0xFFE5, false),
    Key(0xFFE7, true), Key(0xFFE8, true), Key(0xFFE9, true), Key(0xFFEA, true), Key(0xFFEB, true), Key(0xFFEC, true),
    Key(0xFFED, true), Key(0xFFEE, true), Key(0xFFFF, false)
  ]

  const KNOWN_KEYS: seq<Key> := EDITING_KEYS + KEYPAD_KEYS + FUNCTION_KEYS + MODIFIER_KEYS

  /** The keysyms of the known keys that are modifiers. */
  const MODIFIERS: seq<int> := [
    0xFE03, 0xFFE1, 0xFFE2, 0xFFE3, 0xFFE4, 0xFFE7, 0xFFE8, 0xFFE9, 0xFFEA, 0xFFEB, 0xFFEC, 0xFFED, 0xFFEE
  ]

  // ------------------------------------------------------------ the table of keys

  predicate Neighbours(s: seq<Key>) {
    forall i :: 0 <= i < |s| - 1 ==> s[i].keysym < s[i + 1].keysym
  }

  predicate Ascending(s: seq<Key>) {
    forall i, j :: 0 <= i < j < |s| ==> s[i].keysym < s[j].keysym
  }

  lemma {:induction false} NeighboursAscend(s: seq<Key>)
    requires Neighbours(s)
    ensures Ascending(s)
  {
    if |s| > 1 {
      var n := |s| - 1;
      NeighboursAscend(s[..n]);
      assert s[n - 1].keysym < s[n].keysym;
      assert forall i :: 0 <= i < n - 1 ==> s[..n][i].keysym < s[..n][n - 1].keysym;
    }
  }

  lemma AscendingJoin(s: seq<Key>, t: seq<Key>)
    requires Ascending(s) && Ascending(t)
    requires s != [] && t != [] && s[|s| - 1].keysym < t[0].keysym
    ensures Ascending(s + t)
  {
    forall i, j | 0 <= i < j < |s + t| ensures (s + t)[i].keysym < (s + t)[j].keysym {
      assert i < |s| - 1 ==> s[i].keysym < s[|s| - 1].keysym;
      assert j > |s| ==> t[0].keysym < t[j - |s|].keysym;
    }
  }

  lemma EditingAscends()
    ensures Ascending(EDITING_KEYS)
  {
    hide Ascending;
    NeighboursAscend(EDITING_KEYS);
  }

  lemma KeypadAscends()
    ensures Ascending(KEYPAD_KEYS)
  {
    hide Ascending;
    NeighboursAscend(KEYPAD_KEYS);
  }

  lemma FunctionsAscend()
    ensures Ascending(FUNCTION_KEYS)
  {
    hide Ascending;
    NeighboursAscend(FUNCTION_KEYS);
  }

  lemma ModifiersAscend()
    ensures Ascending(MODIFIER_KEYS)
  {
    hide Ascending;
    NeighboursAscend(MODIFIER_KEYS);
  }

  /** The table is in the order a binary search needs. */
  lemma KnownKeysAscend()
    ensures Ascending(KNOWN_KEYS)
  {
    hide Ascending;
    EditingAscends();
    KeypadAscends();
    FunctionsAscend();
    ModifiersAscend();
    AscendingJoin(EDITING_KEYS, KEYPAD_KEYS);
    AscendingJoin(EDITING_KEYS + KEYPAD_KEYS, FUNCTION_KEYS);
    AscendingJoin(EDITING_KEYS + KEYPAD_KEYS + FUNCTION_KEYS, MODIFIER_KEYS);
  }

  method Search(table: seq<Key>, keysym: int) returns (index: int)
    requires Ascending(table)
    ensures index == -1 <==> forall i :: 0 <= i < |table| ==> table[i].keysym != keysym
    ensures index != -1 ==> 0 <= index < |table| && table[index].keysym == keysym
  {
    var lo, hi := 0, |table|;
    while lo < hi
      invariant 0 <= lo <= hi <= |table|
      invariant forall i :: 0 <= i < lo ==> table[i].keysym < keysym
      invariant forall i :: hi <= i < |table| ==> keysym < table[i].keysym
    {
      var mid := (lo + hi) / 2;
      var difference := keysym - table[mid].keysym;
      if difference == 0 {
        return mid;
      } else if difference < 0 {
        hi := mid;
      } else {
        lo := mid + 1;
      }
    }
    index := -1;
  }

  /** guaclog_get_known_key: the bsearch over the table. */
  method FindKnown(keysym: int) returns (index: int)
    ensures index == -1 <==> forall i :: 0 <= i < |KNOWN_KEYS| ==> KNOWN_KEYS[i].keysym != keysym
    ensures index != -1 ==> 0 <= index < |KNOWN_KEYS| && KNOWN_KEYS[index].keysym == keysym
  {
    KnownKeysAscend();
    index := Search(KNOWN_KEYS, keysym);
  }

  /** Is the key a modifier, according to the table? */
  predicate IsModifier(keysym: int) {
    Key(keysym, true) in KNOWN_KEYS
  }

  lemma EditingModifiers(keysym: int)
    ensures Key(keysym, true) in EDITING_KEYS <==> keysym == 0xFE03
  {
  }

  lemma OtherModifiers(keysym: int)
    ensures Key(keysym, true) !in KEYPAD_KEYS && Key(keysym, true) !in FUNCTION_KEYS
    ensures Key(keysym, true) in MODIFIER_KEYS <==> 0xFFE1 <= keysym <= 0xFFE4 || 0xFFE7 <= keysym <= 0xFFEE
  {
  }

  /** Exactly thirteen keys are modifiers. */
  lemma ModifierKeysyms(keysym: int)
    ensures IsModifier(keysym) <==> keysym in MODIFIERS
  {
    EditingModifiers(keysym);
    OtherModifiers(keysym);
    assert KNOWN_KEYS == EDITING_KEYS + KEYPAD_KEYS + FUNCTION_KEYS + MODIFIER_KEYS;
  }

  /** What a keysym stands for. */
  datatype KeyDef = Known(index: nat) | Character(codepoint: nat) | Unknown

  /** In a table without repeats an entry alone decides whether its key is a modifier. */
  lemma ListedModifier(table: seq<Key>, index: nat)
    requires Ascending(table) && index < |table|
    ensures Key(table[index].keysym, true) in table <==> table[index].modifier
  {
    if table[index].modifier {
      assert table[index] == Key(table[index].keysym, true);
    }
  }

  /** guaclog_keydef_alloc: a known key, else a character, else unknown. */
  method DefineKey(keysym: int) returns (def: KeyDef, modifier: bool)
    ensures modifier == IsModifier(keysym)
    ensures def.Known? ==> def.index < |KNOWN_KEYS| && KNOWN_KEYS[def.index] == Key(keysym, modifier)
    ensures !def.Known? ==> forall i :: 0 <= i < |KNOWN_KEYS| ==> KNOWN_KEYS[i].keysym != keysym
    ensures !def.Known? ==> (def.Character? <==> 0 <= keysym <= 0xFF || 0x100_0000 <= keysym <= 0x100_FFFF)
    ensures def.Character? ==> def.codepoint == keysym % 0x10000
  {
    hide KNOWN_KEYS, Ascending;
    var index := FindKnown(keysym);
    if index != -1 {
      KnownKeysAscend();
      ListedModifier(KNOWN_KEYS, index);
      return Known(index), KNOWN_KEYS[index].modifier;
    }
    modifier := false;
    if keysym < 0 || (keysym > 0xFF && keysym / 0x10000 != 0x100) {
      def := Unknown;
    } else {
      def := Character(keysym % 0x10000);
    }
  }

  /** The mask the program tests a keysym with selects this range. */
  lemma CharacterMask(keysym: bv32)
    ensures keysym | 0xFFFF == 0x0100FFFF <==> 0x0100_0000 <= keysym <= 0x0100_FFFF
  {
  }

  // -------------------------------------------------------------- tracked keys

  datatype KeyEntry = KeyEntry(keysym: int, pressed: bool)

  /** The position of a key among the tracked keys, or their number. */
  function Position(table: seq<KeyEntry>, keysym: int): (i: nat)
    ensures i <= |table| && (i < |table| ==> table[i].keysym == keysym)
    ensures forall j :: 0 <= j < i ==> table[j].keysym != keysym
  {
    if table == [] || table[0].keysym == keysym then 0
    else
      var i := Position(table[1..], keysym) + 1;
      assert forall j :: 1 <= j < i ==> table[j] == table[1..][j - 1];
      i
  }

  /** The table with the state of one key updated or added. */
  function Updated(table: seq<KeyEntry>, keysym: int, pressed: bool): seq<KeyEntry> {
    var i := Position(table, keysym);
    if i < |table| then table[i := KeyEntry(keysym, pressed)] else table + [KeyEntry(keysym, pressed)]
  }

  /** The table up to its last pressed key. */
  function Trimmed(table: seq<KeyEntry>): seq<KeyEntry> {
    if table == [] || table[|table| - 1].pressed then table else Trimmed(table[..|table| - 1])
  }

  function Tracked(table: seq<KeyEntry>, event: KeyEntry): seq<KeyEntry> {
    if IsModifier(event.keysym) then Trimmed(Updated(table, event.keysym, event.pressed)) else table
  }

  /** The table after a history of key events. */
  function TableAfter(history: seq<KeyEntry>): seq<KeyEntry> {
    if history == [] then [] else Tracked(TableAfter(history[..|history| - 1]), history[|history| - 1])
  }

  /** Was the latest event of this key a press? */
  predicate Held(history: seq<KeyEntry>, keysym: int) {
    history != [] &&
    var last := history[|history| - 1];
    if last.keysym == keysym then last.pressed else Held(history[..|history| - 1], keysym)
  }

  predicate DistinctKeys(table: seq<KeyEntry>) {
    forall i, j :: 0 <= i < j < |table| ==> table[i].keysym != table[j].keysym
  }

  predicate AllModifiers(table: seq<KeyEntry>) {
    forall i :: 0 <= i < |table| ==> IsModifier(table[i].keysym)
  }

  predicate EndsPressed(table: seq<KeyEntry>) {
    table != [] ==> table[|table| - 1].pressed
  }

  lemma UpdatedKeeps(table: seq<KeyEntry>, keysym: int, pressed: bool)
    requires DistinctKeys(table) && AllModifiers(table) && IsModifier(keysym)
    ensures var t := Updated(table, keysym, pressed);
            && DistinctKeys(t) && AllModifiers(t)
            && forall k :: KeyEntry(k, true) in t <==> if k == keysym then pressed else KeyEntry(k, true) in table
  {
    hide IsModifier;
    var t, n := Updated(table, keysym, pressed), Position(table, keysym);
    assert t[n] == KeyEntry(keysym, pressed);
    forall k ensures KeyEntry(k, true) in t <==> if k == keysym then pressed else KeyEntry(k, true) in table {
      if k != keysym && KeyEntry(k, true) in table {
        var j :| 0 <= j < |table| && table[j] == KeyEntry(k, true);
        assert t[j] == table[j];
      }
      if KeyEntry(k, true) in t {
        var j :| 0 <= j < |t| && t[j] == KeyEntry(k, true);
        assert j != n ==> t[j] == table[j] && t[j].keysym != keysym;
      }
    }
  }

  lemma {:induction false} TrimmedKeeps(table: seq<KeyEntry>)
    requires DistinctKeys(table) && AllModifiers(table)
    ensures var t := Trimmed(table);
            && t <= table && DistinctKeys(t) && AllModifiers(t) && EndsPressed(t)
            && forall k :: KeyEntry(k, true) in t <==> KeyEntry(k, true) in table
  {
    hide IsModifier;
    if table != [] && !table[|table| - 1].pressed {
      TrimmedKeeps(table[..|table| - 1]);
      assert table == table[..|table| - 1] + [table[|table| - 1]];
    }
  }

  lemma EmptyTable()
    ensures DistinctKeys([]) && AllModifiers([]) && EndsPressed([])
  {
  }

  /** After every history the tracked keys are distinct modifiers, the last of
      them is pressed, and those marked pressed are exactly the modifiers whose
      latest event was a press. */
  lemma {:induction false} TableTracksModifiers(history: seq<KeyEntry>)
    ensures var table := TableAfter(history);
            && DistinctKeys(table) && AllModifiers(table) && EndsPressed(table)
            && forall k :: KeyEntry(k, true) in table <==> IsModifier(k) && Held(history, k)
  {
    hide IsModifier, Updated, Trimmed, DistinctKeys, AllModifiers, EndsPressed;
    if history != [] {
      var front, last := history[..|history| - 1], history[|history| - 1];
      TableTracksModifiers(front);
      if IsModifier(last.keysym) {
        UpdatedKeeps(TableAfter(front), last.keysym, last.pressed);
        TrimmedKeeps(Updated(TableAfter(front), last.keysym, last.pressed));
      }
    } else {
      EmptyTable();
    }
  }

  /** Distinct values drawn from a list are no more than the list is long. */
  lemma {:induction false} FewerThan(table: seq<KeyEntry>, list: seq<int>)
    requires DistinctKeys(table) && forall i :: 0 <= i < |table| ==> table[i].keysym in list
    ensures |table| <= |list|
  {
    if table != [] {
      var n := |table| - 1;
      var k :| 0 <= k < |list| && list[k] == table[n].keysym;
      var rest := list[..k] + list[k + 1..];
      forall i | 0 <= i < n ensures table[..n][i].keysym in rest {
        assert table[i].keysym in list && table[i].keysym != list[k];
        assert list == list[..k] + [list[k]] + list[k + 1..];
      }
      FewerThan(table[..n], rest);
    }
  }

  /** The table never grows near its capacity. */
  lemma TableIsShort(table: seq<KeyEntry>)
    requires DistinctKeys(table) && AllModifiers(table)
    ensures |table| <= |MODIFIERS| == 13
  {
    hide IsModifier;
    forall i | 0 <= i < |table| ensures table[i].keysym in MODIFIERS {
      ModifierKeysyms(table[i].keysym);
    }
    FewerThan(table, MODIFIERS);
  }

  class KeyLog {
    const keyStates: array<KeyEntry>
    var activeKeys: nat
    /** All events so far. */
    ghost var history: seq<KeyEntry>

    ghost function Table(): seq<KeyEntry>
      requires activeKeys <= keyStates.Length
      reads this, keyStates
    {
      keyStates[..activeKeys]
    }

    ghost predicate Valid()
      reads this, keyStates
    {
      && keyStates.Length == MAX_KEYS && activeKeys <= MAX_KEYS
      && Table() == TableAfter(history)
    }

    constructor ()
      ensures Valid() && history == []
    {
      keyStates := new KeyEntry[MAX_KEYS](_ => KeyEntry(0, false));
      activeKeys, history := 0, [];
    }

    /** guaclog_state_add_key. Fails only if the table is full. */
    method AddKey(keysym: int, pressed: bool) returns (failed: bool)
      requires activeKeys <= keyStates.Length == MAX_KEYS
      modifies this`activeKeys, keyStates
      ensures activeKeys <= keyStates.Length
      ensures failed == (old(activeKeys) == MAX_KEYS && Position(old(Table()), keysym) == MAX_KEYS)
      ensures Table() == if failed then old(Table()) else Updated(old(Table()), keysym, pressed)
    {
      ghost var table := Table();
      ghost var n := Position(table, keysym);
      failed := false;
      for i := 0 to activeKeys
        invariant keyStates[..] == old(keyStates[..]) && i <= n
      {
        if keyStates[i].keysym == keysym {
          assert table[i].keysym == keysym;
          keyStates[i] := KeyEntry(keysym, pressed);
          assert Table() == table[i := KeyEntry(keysym, pressed)];
          return;
        }
        assert i < n;
      }
      if activeKeys == MAX_KEYS {
        return true;
      }
      keyStates[activeKeys] := KeyEntry(keysym, pressed);
      activeKeys := activeKeys + 1;
      assert Table() == table + [KeyEntry(keysym, pressed)];
    }

    /** guaclog_state_trim_keys. */
    method TrimKeys()
      requires activeKeys <= keyStates.Length
      modifies this`activeKeys
      ensures activeKeys <= keyStates.Length && Table() == Trimmed(old(Table()))
    {
      ghost var table := Table();
      var i := activeKeys - 1;
      assert table[..activeKeys] == table;
      while i >= 0
        invariant -1 <= i < activeKeys && Trimmed(table[..i + 1]) == Trimmed(table)
      {
        assert table[..i + 1][..i] == table[..i];
        if keyStates[i].pressed {
          activeKeys := i + 1;
          assert Table() == table[..i + 1];
          return;
        }
        i := i - 1;
      }
      activeKeys := 0;
    }

    /** guaclog_state_update_key, without its output. The table is never full. */
    method UpdateKey(keysym: int, pressed: bool)
      requires Valid()
      modifies this, keyStates
      ensures Valid() && history == old(history) + [KeyEntry(keysym, pressed)] && activeKeys <= 13
    {
      hide IsModifier, Updated, Trimmed;
      ghost var before := history;
      history := before + [KeyEntry(keysym, pressed)];
      assert history[..|before|] == before;
      TableTracksModifiers(before);
      TableIsShort(TableAfter(before));
      var def, modifier := DefineKey(keysym);
      if modifier {
        var failed := AddKey(keysym, pressed);
        if !failed {
          TrimKeys();
        }
      }
      TableTracksModifiers(history);
      TableIsShort(TableAfter(history));
    }
  }
}
