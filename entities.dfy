/** The closed set of cell kinds, their fixed predicates, and the registry that
    finds a kind by level character, level colour or sprite name. */
module Entities {
  import opened Wrappers

  /** A pixel colour of a level image. */
  type RGB = (int, int, int)

  /** The eight kinds of cell a level is made of. */
  datatype Kind = Player | Dirt | Rock | Gem | Wall | ExitClosed | ExitOpen | Empty

  /** An entity as the game builds it. Every kind test compares level characters
      with the character of that kind's factory. */
  datatype Entity = Entity(levelCharacter: string, levelColor: RGB, spriteName: string) {

    predicate IsPlayer() { levelCharacter == PlayerEntity().levelCharacter }
    predicate IsEmpty() { levelCharacter == EmptyEntity().levelCharacter }
    predicate IsRock() { levelCharacter == RockEntity().levelCharacter }
    predicate IsGem() { levelCharacter == GemEntity().levelCharacter }
    predicate IsWall() { levelCharacter == WallEntity().levelCharacter }
    predicate IsDirt() { levelCharacter == DirtEntity().levelCharacter }
    predicate IsExitClosed() { levelCharacter == ClosedExitEntity().levelCharacter }
    predicate IsExitOpen() { levelCharacter == OpenExitEntity().levelCharacter }

    /** The player may step onto it. */
    predicate IsWalkable() { IsEmpty() || IsDirt() || IsGem() || IsExitOpen() }

    /** Nothing moves into it. */
    predicate IsImmovable() { IsWall() || IsExitClosed() }

    /** Gravity applies to it. */
    predicate CanFall() { IsRock() || IsGem() }
  }

  // The eight factories.
  function PlayerEntity(): Entity { Entity("@", (172, 50, 50), "player") }
  function DirtEntity(): Entity { Entity(".", (82, 75, 36), "dirt") }
  function RockEntity(): Entity { Entity("R", (155, 173, 183), "rock") }
  function GemEntity(): Entity { Entity("G", (106, 190, 48), "gem") }
  function WallEntity(): Entity { Entity("#", (46, 46, 46), "wall") }
  function ClosedExitEntity(): Entity { Entity("E", (105, 52, 18), "closed_door") }
  function OpenExitEntity(): Entity { Entity("O", (223, 113, 38), "open_door") }
  function EmptyEntity(): Entity { Entity(" ", (0, 0, 0), "empty") }

  /** The factory entity of a kind. */
  function Make(k: Kind): Entity {
    match k
    case Player => PlayerEntity()
    case Dirt => DirtEntity()
    case Rock => RockEntity()
    case Gem => GemEntity()
    case Wall => WallEntity()
    case ExitClosed => ClosedExitEntity()
    case ExitOpen => OpenExitEntity()
    case Empty => EmptyEntity()
  }

  /** The player may step onto a cell of kind k. */
  predicate Walkable(k: Kind)
    ensures Walkable(k) <==> k == Empty || k == Dirt || k == Gem || k == ExitOpen
  {
    Make(k).IsWalkable()
  }

  /** A cell of kind k blocks every move into it. */
  predicate Immovable(k: Kind)
    ensures Immovable(k) <==> k == Wall || k == ExitClosed
  {
    Make(k).IsImmovable()
  }

  /** A cell of kind k is subject to gravity. */
  predicate CanFall(k: Kind)
    ensures CanFall(k) <==> k == Rock || k == Gem
  {
    Make(k).CanFall()
  }

  /** Each kind test holds of exactly one factory entity. */
  lemma KindTestsExact(k: Kind)
    ensures Make(k).IsPlayer() <==> k == Player
    ensures Make(k).IsEmpty() <==> k == Empty
    ensures Make(k).IsRock() <==> k == Rock
    ensures Make(k).IsGem() <==> k == Gem
    ensures Make(k).IsWall() <==> k == Wall
    ensures Make(k).IsDirt() <==> k == Dirt
    ensures Make(k).IsExitClosed() <==> k == ExitClosed
    ensures Make(k).IsExitOpen() <==> k == ExitOpen
  {
    match k
    case Player =>
    case Dirt =>
    case Rock =>
    case Gem =>
    case Wall =>
    case ExitClosed =>
    case ExitOpen =>
    case Empty =>
  }

  /** The three static predicates never contradict each other, and the player
      marker satisfies none of them. */
  lemma PredicatesConsistent(k: Kind)
    ensures !(Walkable(k) && Immovable(k))
    ensures Immovable(k) ==> !CanFall(k)
    ensures k == Player ==> !Walkable(k) && !Immovable(k) && !CanFall(k)
  {
  }

  /** Distinct kinds have distinct characters, colours and sprite names, so the
      registry's three tables never let one kind shadow another. */
  lemma FactoriesDistinct(k1: Kind, k2: Kind)
    requires k1 != k2
    ensures Make(k1).levelCharacter != Make(k2).levelCharacter
    ensures Make(k1).levelColor != Make(k2).levelColor
    ensures Make(k1).spriteName != Make(k2).spriteName
  {
    CharactersDistinct(k1, k2);
    ColorsDistinct(k1, k2);
    NamesDistinct(k1, k2);
  }

  /** The first letter of each kind's sprite name; the level characters are single letters. */
  function NameInitial(k: Kind): char {
    match k
    case Player => 'p'
    case Dirt => 'd'
    case Rock => 'r'
    case Gem => 'g'
    case Wall => 'w'
    case ExitClosed => 'c'
    case ExitOpen => 'o'
    case Empty => 'e'
  }

  /** The red component of each kind's level colour. */
  function RedOf(k: Kind): int {
    match k
    case Player => 172
    case Dirt => 82
    case Rock => 155
    case Gem => 106
    case Wall => 46
    case ExitClosed => 105
    case ExitOpen => 223
    case Empty => 0
  }

  function CharacterOf(k: Kind): char {
    match k
    case Player => '@'
    case Dirt => '.'
    case Rock => 'R'
    case Gem => 'G'
    case Wall => '#'
    case ExitClosed => 'E'
    case ExitOpen => 'O'
    case Empty => ' '
  }

  lemma Initials(k: Kind)
    ensures Make(k).levelCharacter == [CharacterOf(k)]
    ensures |Make(k).spriteName| > 0 && Make(k).spriteName[0] == NameInitial(k)
    ensures Make(k).levelColor.0 == RedOf(k)
  {
    match k
    case Player =>
    case Dirt =>
    case Rock =>
    case Gem =>
    case Wall =>
    case ExitClosed =>
    case ExitOpen =>
    case Empty =>
  }

  lemma CharactersDistinct(k1: Kind, k2: Kind)
    requires k1 != k2
    ensures Make(k1).levelCharacter != Make(k2).levelCharacter
  {
    Initials(k1);
    Initials(k2);
    assert CharacterOf(k1) != CharacterOf(k2);
  }

  lemma ColorsDistinct(k1: Kind, k2: Kind)
    requires k1 != k2
    ensures Make(k1).levelColor != Make(k2).levelColor
  {
    Initials(k1);
    Initials(k2);
    assert RedOf(k1) != RedOf(k2);
  }

  lemma NamesDistinct(k1: Kind, k2: Kind)
    requires k1 != k2
    ensures Make(k1).spriteName != Make(k2).spriteName
  {
    Initials(k1);
    Initials(k2);
    assert NameInitial(k1) != NameInitial(k2);
  }

  /** A lookup that answers None for a key that was never registered. */
  function Lookup<K>(m: map<K, Kind>, key: K): Option<Kind> {
    if key in m then Some(m[key]) else None
  }

  /** The character table after registering ks in order (later entries win). */
  function CharTable(ks: seq<Kind>): map<string, Kind> {
    if ks == [] then map[]
    else CharTable(ks[..|ks| - 1])[Make(ks[|ks| - 1]).levelCharacter := ks[|ks| - 1]]
  }

  /** The colour table after registering ks in order. */
  function ColorTable(ks: seq<Kind>): map<RGB, Kind> {
    if ks == [] then map[]
    else ColorTable(ks[..|ks| - 1])[Make(ks[|ks| - 1]).levelColor := ks[|ks| - 1]]
  }

  /** The sprite-name table after registering ks in order. */
  function NameTable(ks: seq<Kind>): map<string, Kind> {
    if ks == [] then map[]
    else NameTable(ks[..|ks| - 1])[Make(ks[|ks| - 1]).spriteName := ks[|ks| - 1]]
  }

  /** After registering ks, each of the three tables finds every registered kind
      under that kind's own key, and has no other keys. */
  lemma {:induction false} TablesRoundTrip(ks: seq<Kind>)
    ensures CharTable(ks).Keys == set k | k in ks :: Make(k).levelCharacter
    ensures ColorTable(ks).Keys == set k | k in ks :: Make(k).levelColor
    ensures NameTable(ks).Keys == set k | k in ks :: Make(k).spriteName
    ensures forall k | k in ks :: CharTable(ks)[Make(k).levelCharacter] == k
    ensures forall k | k in ks :: ColorTable(ks)[Make(k).levelColor] == k
    ensures forall k | k in ks :: NameTable(ks)[Make(k).spriteName] == k
  {
    CharTableRoundTrip(ks);
    ColorTableRoundTrip(ks);
    NameTableRoundTrip(ks);
  }

  lemma {:induction false} CharTableRoundTrip(ks: seq<Kind>)
    ensures CharTable(ks).Keys == set k | k in ks :: Make(k).levelCharacter
    ensures forall k | k in ks :: CharTable(ks)[Make(k).levelCharacter] == k
  {
    if ks != [] {
      var init, last := ks[..|ks| - 1], ks[|ks| - 1];
      CharTableRoundTrip(init);
      assert ks == init + [last];
      forall k | k in ks && k != last
        ensures CharTable(ks)[Make(k).levelCharacter] == k
      {
        CharactersDistinct(k, last);
      }
    }
  }

  lemma {:induction false} ColorTableRoundTrip(ks: seq<Kind>)
    ensures ColorTable(ks).Keys == set k | k in ks :: Make(k).levelColor
    ensures forall k | k in ks :: ColorTable(ks)[Make(k).levelColor] == k
  {
    if ks != [] {
      var init, last := ks[..|ks| - 1], ks[|ks| - 1];
      ColorTableRoundTrip(init);
      assert ks == init + [last];
      forall k | k in ks && k != last
        ensures ColorTable(ks)[Make(k).levelColor] == k
      {
        ColorsDistinct(k, last);
      }
    }
  }

  lemma {:induction false} NameTableRoundTrip(ks: seq<Kind>)
    ensures NameTable(ks).Keys == set k | k in ks :: Make(k).spriteName
    ensures forall k | k in ks :: NameTable(ks)[Make(k).spriteName] == k
  {
    if ks != [] {
      var init, last := ks[..|ks| - 1], ks[|ks| - 1];
      NameTableRoundTrip(init);
      assert ks == init + [last];
      forall k | k in ks && k != last
        ensures NameTable(ks)[Make(k).spriteName] == k
      {
        NamesDistinct(k, last);
      }
    }
  }

  /** The registration order of the game's one global registry. */
  const StandardKinds: seq<Kind> := [Player, Dirt, Rock, Gem, Wall, ExitClosed, ExitOpen, Empty]

  /** The three lookup tables, held in maps the registration updates in place. */
  class EntityRegistry {
    var entitiesByChar: map<string, Kind>
    var entitiesByColor: map<RGB, Kind>
    var entitiesByName: map<string, Kind>

    constructor ()
      ensures entitiesByChar == map[] && entitiesByColor == map[] && entitiesByName == map[]
    {
      entitiesByChar, entitiesByColor, entitiesByName := map[], map[], map[];
    }

    /** Enters a kind's character, colour and sprite name into the three tables. */
    method RegisterEntity(k: Kind)
      modifies this
      ensures entitiesByChar == old(entitiesByChar)[Make(k).levelCharacter := k]
      ensures entitiesByColor == old(entitiesByColor)[Make(k).levelColor := k]
      ensures entitiesByName == old(entitiesByName)[Make(k).spriteName := k]
    {
      var e := Make(k);
      entitiesByChar := entitiesByChar[e.levelCharacter := k];
      entitiesByColor := entitiesByColor[e.levelColor := k];
      entitiesByName := entitiesByName[e.spriteName := k];
    }

    function ByChar(c: string): Option<Kind>
      reads this
    {
      Lookup(entitiesByChar, c)
    }

    function ByColor(color: RGB): Option<Kind>
      reads this
    {
      Lookup(entitiesByColor, color)
    }

    function ByName(name: string): Option<Kind>
      reads this
    {
      Lookup(entitiesByName, name)
    }
  }

  /** Builds the global registry: the eight kinds registered in the game's order. */
  method NewStandardRegistry() returns (r: EntityRegistry)
    ensures fresh(r)
    ensures r.entitiesByChar == CharTable(StandardKinds)
    ensures r.entitiesByColor == ColorTable(StandardKinds)
    ensures r.entitiesByName == NameTable(StandardKinds)
  {
    r := new EntityRegistry();
    for i := 0 to |StandardKinds|
      invariant r.entitiesByChar == CharTable(StandardKinds[..i])
      invariant r.entitiesByColor == ColorTable(StandardKinds[..i])
      invariant r.entitiesByName == NameTable(StandardKinds[..i])
    {
      assert StandardKinds[..i + 1] == StandardKinds[..i] + [StandardKinds[i]];
      TablesSnoc(StandardKinds[..i], StandardKinds[i]);
      r.RegisterEntity(StandardKinds[i]);
    }
    assert StandardKinds[..|StandardKinds|] == StandardKinds;
  }

  /** Registering one more kind updates each table at that kind's key. */
  lemma TablesSnoc(ks: seq<Kind>, k: Kind)
    ensures CharTable(ks + [k]) == CharTable(ks)[Make(k).levelCharacter := k]
    ensures ColorTable(ks + [k]) == ColorTable(ks)[Make(k).levelColor := k]
    ensures NameTable(ks + [k]) == NameTable(ks)[Make(k).spriteName := k]
  {
    assert (ks + [k])[..|ks|] == ks;
  }

  /** In the global registry every kind is found by its own character, colour
      and sprite name, and a key no kind has is found by none of them. */
  lemma StandardLookups(k: Kind, c: string, color: RGB, name: string)
    ensures Lookup(CharTable(StandardKinds), Make(k).levelCharacter) == Some(k)
    ensures Lookup(ColorTable(StandardKinds), Make(k).levelColor) == Some(k)
    ensures Lookup(NameTable(StandardKinds), Make(k).spriteName) == Some(k)
    ensures (forall k' :: Make(k').levelCharacter != c) ==> Lookup(CharTable(StandardKinds), c) == None
    ensures (forall k' :: Make(k').levelColor != color) ==> Lookup(ColorTable(StandardKinds), color) == None
    ensures (forall k' :: Make(k').spriteName != name) ==> Lookup(NameTable(StandardKinds), name) == None
  {
    TablesRoundTrip(StandardKinds);
    assert k in StandardKinds by { match k { case _ => } }
  }
}
