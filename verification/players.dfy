/**
 The two participants of a game. A player is an identity together with a
 display name and a marker. The game compares players by identity: the
 `side` field plays the role of the object reference, so two players of
 different sides are different even when their names and markers agree.
 */
module Players {
  import opened Options

  /** The identity of a player; exactly one player of each side takes part. */
  datatype Side = Human | Computer

  datatype Player = Player(side: Side, name: string, marker: string)

  /** The players the program starts with. */
  const DefaultHuman: Player := Player(Human, "You", "X")
  const DefaultComputer: Player := Player(Computer, "Computer", "O")

  /** Text between the name and marker in a player's description. */
  const NameMarkerSeparator: string := ": "

  /** Position of the first `ch` in `s`, or `|s|` when there is none. */
  function FirstIndexOf(s: string, ch: char): (i: nat)
    ensures i <= |s|
    ensures forall j :: 0 <= j < i ==> s[j] != ch
    ensures i < |s| ==> s[i] == ch
  {
    if s == [] then 0
    else if s[0] == ch then 0
    else 1 + FirstIndexOf(s[1..], ch)
  }

  /** The display string of a player: its name, a colon, a blank, its marker. */
  function Describe(p: Player): string
  {
    p.name + NameMarkerSeparator + p.marker
  }

  /**
   Reads a description back into a name and a marker, splitting at the
   first colon; `None` when the text has no colon followed by a blank.
   */
  function ParseDescription(s: string): (r: Option<(string, string)>)
    ensures r.Some? ==> s == r.value.0 + NameMarkerSeparator + r.value.1
    ensures r.Some? ==> ':' !in r.value.0
  {
    var i := FirstIndexOf(s, ':');
    if i + 1 < |s| && s[i + 1] == ' ' then
      assert s == s[..i] + NameMarkerSeparator + s[i + 2..];
      assert forall j :: 0 <= j < i ==> s[..i][j] != ':';
      Some((s[..i], s[i + 2..]))
    else
      None
  }

  /** A description determines the name and the marker, provided the name has no colon. */
  lemma {:induction false} DescribeRoundTrip(p: Player)
    requires ':' !in p.name
    ensures ParseDescription(Describe(p)) == Some((p.name, p.marker))
  {
    var s := Describe(p);
    var n := |p.name|;
    assert s[n] == ':' && s[n + 1] == ' ';
    assert forall j :: 0 <= j < n ==> s[j] == p.name[j];
    assert FirstIndexOf(s, ':') == n;
    assert s[..n] == p.name;
    assert s[n + 2..] == p.marker;
  }
}
