/** The direction keys: which key means which step, the list of held keys in
    the order they were pressed (the last one wins), and the key repeat that
    keeps moving the player while a key is held. */
module Input {
  import opened Wrappers
  import opened Accumulators

  /** A unit step of the player. */
  datatype Dir = Dir(dx: int, dy: int)

  /** The eight keys the controller listens to for movement. */
  const DirectionKeys: seq<string> := ["left", "right", "up", "down", "a", "d", "w", "s"]

  /** A held key repeats its move every 10 milliseconds. */
  const RepeatIntervalMillis := 10

  /** The step a key stands for: arrows and WASD; None for any other key. */
  function DirForKey(key: string): (r: Option<Dir>)
    ensures r.Some? <==> key in DirectionKeys
    ensures r.Some? ==> r.value in {Dir(-1, 0), Dir(1, 0), Dir(0, -1), Dir(0, 1)}
  {
    if key == "left" || key == "a" then Some(Dir(-1, 0))
    else if key == "right" || key == "d" then Some(Dir(1, 0))
    else if key == "up" || key == "w" then Some(Dir(0, -1))
    else if key == "down" || key == "s" then Some(Dir(0, 1))
    else None
  }

  /** Each of the four steps has its arrow key and its letter key, and no
      other key gives it. */
  lemma DirKeys(key: string)
    ensures DirForKey(key) == Some(Dir(-1, 0)) <==> key == "left" || key == "a"
    ensures DirForKey(key) == Some(Dir(1, 0)) <==> key == "right" || key == "d"
    ensures DirForKey(key) == Some(Dir(0, -1)) <==> key == "up" || key == "w"
    ensures DirForKey(key) == Some(Dir(0, 1)) <==> key == "down" || key == "s"
  {
  }

  /** `s.filter(k => k !== key)`. */
  function Without(s: seq<string>, key: string): (r: seq<string>)
    ensures key !in r
    ensures forall k | k != key :: k in r <==> k in s
    ensures |r| <= |s|
  {
    if s == [] then []
    else if s[0] == key then Without(s[1..], key)
    else [s[0]] + Without(s[1..], key)
  }

  /** No key is held twice. */
  predicate NoDuplicates(s: seq<string>) {
    forall i, j | 0 <= i < j < |s| :: s[i] != s[j]
  }

  /** Filtering out a key that is not there changes nothing. */
  lemma {:induction false} WithoutAbsent(s: seq<string>, key: string)
    requires key !in s
    ensures Without(s, key) == s
  {
    if s != [] {
      WithoutAbsent(s[1..], key);
    }
  }

  /** Filtering out the key held at index i of a duplicate-free list removes
      that entry and keeps the others in their order. */
  lemma {:induction false} WithoutAt(s: seq<string>, key: string, i: int)
    requires NoDuplicates(s) && 0 <= i < |s| && s[i] == key
    ensures Without(s, key) == s[..i] + s[i + 1..]
  {
    if i == 0 {
      assert key !in s[1..];
      WithoutAbsent(s[1..], key);
    } else {
      WithoutAt(s[1..], key, i - 1);
      assert [s[0]] + s[1..][..i - 1] == s[..i];
      assert s[1..][i..] == s[i + 1..];
    }
  }

  /** Filtering keeps a list free of duplicates. */
  lemma {:induction false} WithoutNoDuplicates(s: seq<string>, key: string)
    requires NoDuplicates(s)
    ensures NoDuplicates(Without(s, key))
  {
    if key in s {
      var i :| 0 <= i < |s| && s[i] == key;
      WithoutAt(s, key, i);
    } else {
      WithoutAbsent(s, key);
    }
  }

  /** The list after a press of key: filtered, then key appended. */
  function Pressed(s: seq<string>, key: string): seq<string> {
    Without(s, key) + [key]
  }

  /** After a press the key is held exactly once, as the last entry; the
      other held keys keep their relative order; and a duplicate-free list
      stays duplicate-free. */
  lemma PressedOrder(s: seq<string>, key: string)
    requires NoDuplicates(s)
    ensures var r := Pressed(s, key);
      && r[|r| - 1] == key && key !in r[..|r| - 1]
      && NoDuplicates(r)
      && (key !in s ==> r == s + [key])
      && (forall i | 0 <= i < |s| && s[i] == key :: r == s[..i] + s[i + 1..] + [key])
  {
    var r := Pressed(s, key);
    WithoutNoDuplicates(s, key);
    assert r[..|r| - 1] == Without(s, key);
    if key !in s {
      WithoutAbsent(s, key);
    }
    forall i | 0 <= i < |s| && s[i] == key ensures r == s[..i] + s[i + 1..] + [key] {
      WithoutAt(s, key, i);
    }
  }

  /** Every held key is a direction key, each at most once. */
  ghost predicate HeldKeysValid(s: seq<string>) {
    NoDuplicates(s) && forall k | k in s :: k in DirectionKeys
  }

  class InputController {
    /** The held direction keys, oldest press first. */
    var dirPressedOrder: seq<string>
    /** Time held since the last press, release or repeat, in milliseconds. */
    var repeatAccMillis: int

    constructor ()
      ensures dirPressedOrder == [] && repeatAccMillis == 0
    {
      dirPressedOrder, repeatAccMillis := [], 0;
    }

    /** A direction key goes down: it moves to the end of the list, the
        repeat restarts, and the player moves once unless the key was already
        held. Any other key changes nothing. */
    method PressDirKey(key: string) returns (move: Option<Dir>)
      modifies this
      ensures DirForKey(key).None? ==>
        move.None? && dirPressedOrder == old(dirPressedOrder) && repeatAccMillis == old(repeatAccMillis)
      ensures DirForKey(key).Some? ==>
        && dirPressedOrder == Pressed(old(dirPressedOrder), key) && repeatAccMillis == 0
        && move == (if key in old(dirPressedOrder) then None else DirForKey(key))
      ensures HeldKeysValid(old(dirPressedOrder)) ==> HeldKeysValid(dirPressedOrder)
    {
      move := None;
      var dir := DirForKey(key);
      if dir.None? {
        return;
      }
      var wasAlreadyDown := key in dirPressedOrder;
      if HeldKeysValid(dirPressedOrder) {
        PressedOrder(dirPressedOrder, key);
      }
      dirPressedOrder := Without(dirPressedOrder, key);
      dirPressedOrder := dirPressedOrder + [key];
      repeatAccMillis := 0;
      if !wasAlreadyDown {
        move := dir;
      }
    }

    /** A direction key goes up: it leaves the list, the others keep their
        order, and the repeat restarts. Any other key changes nothing. */
    method ReleaseDirKey(key: string)
      modifies this
      ensures DirForKey(key).None? ==>
        dirPressedOrder == old(dirPressedOrder) && repeatAccMillis == old(repeatAccMillis)
      ensures DirForKey(key).Some? ==>
        dirPressedOrder == Without(old(dirPressedOrder), key) && repeatAccMillis == 0
      ensures HeldKeysValid(old(dirPressedOrder)) ==> HeldKeysValid(dirPressedOrder)
    {
      var dir := DirForKey(key);
      if dir.None? {
        return;
      }
      if HeldKeysValid(dirPressedOrder) {
        WithoutNoDuplicates(dirPressedOrder, key);
      }
      dirPressedOrder := Without(dirPressedOrder, key);
      repeatAccMillis := 0;
    }

    /** The per-frame repeat: with no key held nothing happens; otherwise
        dt milliseconds are added and the player moves in the direction of
        the most recently pressed held key once per whole repeat interval. */
    method RepeatMoves(dt: int) returns (moves: seq<Dir>)
      modifies this
      ensures dirPressedOrder == old(dirPressedOrder)
      ensures old(dirPressedOrder) == [] || DirForKey(Last(old(dirPressedOrder))).None? ==>
        moves == [] && repeatAccMillis == old(repeatAccMillis)
      ensures old(dirPressedOrder) != [] && DirForKey(Last(old(dirPressedOrder))).Some? ==>
        var t := old(repeatAccMillis) + dt;
        && |moves| == Quanta(t, RepeatIntervalMillis)
        && (forall i | 0 <= i < |moves| :: moves[i] == DirForKey(Last(old(dirPressedOrder))).value)
        && repeatAccMillis == t - Quanta(t, RepeatIntervalMillis) * RepeatIntervalMillis
        && repeatAccMillis < RepeatIntervalMillis
    {
      moves := [];
      if |dirPressedOrder| == 0 {
        return;
      }
      var activeKey := dirPressedOrder[|dirPressedOrder| - 1];
      var dir := DirForKey(activeKey);
      if dir.None? {
        return;
      }
      repeatAccMillis := repeatAccMillis + dt;
      ghost var total := repeatAccMillis;
      while repeatAccMillis >= RepeatIntervalMillis
        invariant dirPressedOrder == old(dirPressedOrder)
        invariant repeatAccMillis == total - |moves| * RepeatIntervalMillis
        invariant |moves| + Quanta(repeatAccMillis, RepeatIntervalMillis) == Quanta(total, RepeatIntervalMillis)
        invariant forall i | 0 <= i < |moves| :: moves[i] == dir.value
        decreases repeatAccMillis
      {
        QuantaStep(repeatAccMillis, RepeatIntervalMillis);
        repeatAccMillis := repeatAccMillis - RepeatIntervalMillis;
        moves := moves + [dir.value];
      }
    }
  }

  /** The last entry of a list. */
  function Last(s: seq<string>): string
    requires s != []
  {
    s[|s| - 1]
  }

  /** While keys are held the repeat always has a direction: the last held
      key is a direction key. */
  lemma HeldKeyHasDir(s: seq<string>)
    requires HeldKeysValid(s) && s != []
    ensures DirForKey(Last(s)).Some?
  {
  }
}
