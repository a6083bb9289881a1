/**
 * The marquee text: the threat-level suffix of skull glyphs (`get_skulls`)
 * and the repeating unit the banner scrolls, message plus suffix.
 */
module Marquee {
  import opened Text

  /** The glyph drawn for one skull, U+2126. */
  const Skull: char := '\U{2126}'

  const DefaultMessage: string := "POLICE ASSAULT IN PROGRESS"
  const Separator: string := " /// "

  /** `get_skulls` accepts either a number of skulls or a label from the difficulty list. */
  datatype ThreatInput = Count(n: int) | Label(name: string)

  /** The eleven difficulty labels, indexed by their skull count. */
  const LevelNames: seq<string> := [
    "Easy (0 skulls)", "Normal (1 skull)", "Hard (2 skulls)", "Overkill (3 skulls)",
    "Mayhem (4 skulls)", "Death Wish (5 skulls)", "Death Sentence (6 skulls)",
    "Juggernaut (7 skulls)", "Apocalypse (8 skulls)", "Cataclysmic (9 skulls)",
    "Armageddon (10 skulls)"
  ]

  const Levels: map<string, int> := map[
    "Easy (0 skulls)" := 0, "Normal (1 skull)" := 1, "Hard (2 skulls)" := 2,
    "Overkill (3 skulls)" := 3, "Mayhem (4 skulls)" := 4, "Death Wish (5 skulls)" := 5,
    "Death Sentence (6 skulls)" := 6, "Juggernaut (7 skulls)" := 7,
    "Apocalypse (8 skulls)" := 8, "Cataclysmic (9 skulls)" := 9,
    "Armageddon (10 skulls)" := 10
  ]

  /** The number of skulls: a number is taken as it is, a label is looked up, an unknown label gives 1. */
  function SkullCount(level: ThreatInput): (n: int)
    ensures level.Count? ==> n == level.n
    ensures level.Label? && level.name !in Levels ==> n == 1
    ensures level.Label? ==> 0 <= n <= 10
  {
    match level
    case Count(n) => n
    case Label(name) => if name in Levels then Levels[name] else 1
  }

  /** Every label of the difficulty list maps to its own position in it. */
  lemma LevelNamesCount(i: nat)
    requires i < |LevelNames|
    ensures SkullCount(Label(LevelNames[i])) == i
  {
  }

  /** `[x] * n`: `n` copies of `x`, none when `n` is not positive. */
  function Repeat<T>(x: T, n: int): (r: seq<T>)
    ensures |r| == if n < 0 then 0 else n
    ensures forall i :: 0 <= i < |r| ==> r[i] == x
    decreases if n < 0 then 0 else n
  {
    if n <= 0 then [] else [x] + Repeat(x, n - 1)
  }

  /** The combined length of a list of strings. */
  function TotalLength(parts: seq<string>): nat {
    if parts == [] then 0 else |parts[0]| + TotalLength(parts[1..])
  }

  /** `sep.join(parts)`: the parts in order, one separator between each neighbouring pair. */
  function Join(sep: string, parts: seq<string>): (r: string)
    ensures |r| == TotalLength(parts) + if parts == [] then 0 else |sep| * (|parts| - 1)
    ensures parts != [] ==> |parts[0]| <= |r| && r[..|parts[0]|] == parts[0]
    ensures |parts| >= 2 ==> r[|parts[0]|..|parts[0]| + |sep|] == sep
  {
    if |parts| == 0 then ""
    else if |parts| == 1 then parts[0]
    else parts[0] + sep + Join(sep, parts[1..])
  }

  /** Where part `j` starts in `sep.join(parts)`: after the parts before it and one separator for each. */
  function PartStart(sep: string, parts: seq<string>, j: nat): nat
    requires j <= |parts|
  {
    TotalLength(parts[..j]) + |sep| * j
  }

  lemma PartStartCons(sep: string, parts: seq<string>, j: nat)
    requires 1 <= j <= |parts|
    ensures PartStart(sep, parts, j) == |parts[0]| + |sep| + PartStart(sep, parts[1..], j - 1)
  {
    assert parts[..j][0] == parts[0] && parts[..j][1..] == parts[1..][..j - 1];
  }

  lemma SliceAfter(x: string, y: string, i: nat, k: nat)
    requires i <= k <= |y|
    ensures (x + y)[|x| + i..|x| + k] == y[i..k]
  {
  }

  /** Part `j` of `parts` sits in `r` at its `PartStart`. */
  predicate PartAt(r: string, sep: string, parts: seq<string>, j: nat)
    requires j < |parts|
  {
    var at := PartStart(sep, parts, j);
    at + |parts[j]| <= |r| && r[at..at + |parts[j]|] == parts[j]
  }

  /** Right after part `j` of `parts`, `r` holds one separator, and part `j + 1` starts after it. */
  predicate SepAfter(r: string, sep: string, parts: seq<string>, j: nat)
    requires j + 1 < |parts|
  {
    var at := PartStart(sep, parts, j) + |parts[j]|;
    at + |sep| == PartStart(sep, parts, j + 1) <= |r| && r[at..at + |sep|] == sep
  }

  /**
   * `sep.join(parts)` lays out every part at its `PartStart`, and between
   * each part and the next lies exactly one separator.
   */
  lemma JoinLayout(sep: string, parts: seq<string>)
    ensures forall j :: 0 <= j < |parts| ==> PartAt(Join(sep, parts), sep, parts, j)
    ensures forall j :: 0 <= j < |parts| - 1 ==> SepAfter(Join(sep, parts), sep, parts, j)
  {
    forall j | 0 <= j < |parts|
      ensures PartAt(Join(sep, parts), sep, parts, j)
    {
      JoinPartAt(sep, parts, j);
    }
    forall j | 0 <= j < |parts| - 1
      ensures SepAfter(Join(sep, parts), sep, parts, j)
    {
      JoinSepAfter(sep, parts, j);
    }
  }

  lemma {:induction false} JoinPartAt(sep: string, parts: seq<string>, j: nat)
    requires j < |parts|
    ensures PartAt(Join(sep, parts), sep, parts, j)
    decreases j
  {
    if j == 0 {
      assert parts[..0] == [];
    } else {
      JoinPartAt(sep, parts[1..], j - 1);
      assert Join(sep, parts) == parts[0] + sep + Join(sep, parts[1..]);
      PartShift(parts[0] + sep, Join(sep, parts[1..]), sep, parts, j);
    }
  }

  /** A part placed in the join of the tail is placed in the whole join, one part and one separator further on. */
  lemma PartShift(head: string, tail: string, sep: string, parts: seq<string>, j: nat)
    requires 1 <= j < |parts| && head == parts[0] + sep
    requires PartAt(tail, sep, parts[1..], j - 1)
    ensures PartAt(head + tail, sep, parts, j)
  {
    var rest := parts[1..];
    PartStartCons(sep, parts, j);
    var at := PartStart(sep, rest, j - 1);
    assert parts[j] == rest[j - 1];
    SliceAfter(head, tail, at, at + |parts[j]|);
  }

  lemma JoinFirstSep(sep: string, parts: seq<string>)
    requires 2 <= |parts|
    ensures SepAfter(Join(sep, parts), sep, parts, 0)
  {
    PartStartCons(sep, parts, 1);
    assert parts[..0] == [] && parts[1..][..0] == [];
    assert PartStart(sep, parts, 0) == 0 && PartStart(sep, parts, 1) == |parts[0]| + |sep|;
  }

  lemma {:induction false} JoinSepAfter(sep: string, parts: seq<string>, j: nat)
    requires j + 1 < |parts|
    ensures SepAfter(Join(sep, parts), sep, parts, j)
    decreases j
  {
    if j == 0 {
      JoinFirstSep(sep, parts);
    } else {
      JoinSepAfter(sep, parts[1..], j - 1);
      assert Join(sep, parts) == parts[0] + sep + Join(sep, parts[1..]);
      SepShift(parts[0] + sep, Join(sep, parts[1..]), sep, parts, j);
    }
  }

  /** A separator placed in the join of the tail is placed in the whole join, one part and one separator further on. */
  lemma SepShift(head: string, tail: string, sep: string, parts: seq<string>, j: nat)
    requires 1 <= j && j + 1 < |parts| && head == parts[0] + sep
    requires SepAfter(tail, sep, parts[1..], j - 1)
    ensures SepAfter(head + tail, sep, parts, j)
  {
    var rest := parts[1..];
    PartStartCons(sep, parts, j);
    PartStartCons(sep, parts, j + 1);
    var at := PartStart(sep, rest, j - 1) + |rest[j - 1]|;
    assert parts[j] == rest[j - 1];
    SliceAfter(head, tail, at, at + |sep|);
  }

  /** `n` skull glyphs with single spaces between them, the shape of `" ".join([skull] * n)`. */
  predicate Alternating(s: string, n: nat) {
    |s| == 2 * n - 1 && forall i :: 0 <= i < |s| ==> s[i] == if i % 2 == 0 then Skull else ' '
  }

  lemma {:induction false} JoinSkulls(n: nat)
    requires 1 <= n
    ensures Alternating(Join(" ", Repeat([Skull], n)), n)
  {
    var parts := Repeat([Skull], n);
    if n > 1 {
      JoinSkulls(n - 1);
      assert parts[1..] == Repeat([Skull], n - 1);
      var rest := Join(" ", parts[1..]);
      var s := [Skull] + " " + rest;
      assert Join(" ", parts) == s;
      forall i | 0 <= i < |s|
        ensures s[i] == if i % 2 == 0 then Skull else ' '
      {
        if i >= 2 {
          assert s[i] == rest[i - 2];
        }
      }
    }
  }

  /**
   * `get_skulls(level)`: a space, the skull glyphs separated by single
   * spaces, a space. No skulls leaves two spaces.
   */
  function GetSkulls(level: ThreatInput): (r: string)
    ensures SkullCount(level) <= 0 ==> r == "  "
    ensures SkullCount(level) >= 1 ==> |r| == 2 * SkullCount(level) + 1
    ensures forall i :: 0 <= i < |r| ==> r[i] == if i % 2 == 1 && 1 <= SkullCount(level) then Skull else ' '
  {
    var n := SkullCount(level);
    var joined := Join(" ", Repeat([Skull], n));
    if n >= 1 then
      JoinSkulls(n);
      PaddedSkulls(joined, n);
      " " + joined + " "
    else
      assert joined == [];
      " " + joined + " "
  }

  /** A space on either side of `n` alternating skulls puts the skulls at the odd positions. */
  lemma PaddedSkulls(joined: string, n: nat)
    requires 1 <= n && Alternating(joined, n)
    ensures |" " + joined + " "| == 2 * n + 1
    ensures forall i :: 0 <= i < 2 * n + 1 ==> (" " + joined + " ")[i] == if i % 2 == 1 then Skull else ' '
  {
    var r := " " + joined + " ";
    forall i | 0 <= i < 2 * n + 1
      ensures r[i] == if i % 2 == 1 then Skull else ' '
    {
      if 1 <= i < 2 * n {
        assert r[i] == joined[i - 1];
        assert (i - 1) % 2 == 0 <==> i % 2 == 1;
      }
    }
  }

  /** How many skull glyphs a string holds. */
  function SkullsIn(s: string): nat {
    if s == [] then 0 else (if s[|s| - 1] == Skull then 1 else 0) + SkullsIn(s[..|s| - 1])
  }

  lemma {:induction false} SkullsInAlternating(s: string, k: nat)
    requires k <= |s|
    requires forall i :: 0 <= i < |s| ==> s[i] == if i % 2 == 1 then Skull else ' '
    ensures SkullsIn(s[..k]) == k / 2
  {
    if k > 0 {
      SkullsInAlternating(s, k - 1);
      assert s[..k][..k - 1] == s[..k - 1];
    }
  }

  /** The suffix holds exactly as many skull glyphs as the level asks for (none for a non-positive count). */
  lemma SkullCountMatches(level: ThreatInput)
    ensures SkullsIn(GetSkulls(level)) == if SkullCount(level) < 0 then 0 else SkullCount(level)
  {
    var r := GetSkulls(level);
    if SkullCount(level) >= 1 {
      SkullsInAlternating(r, |r|);
      assert r[..|r|] == r;
    } else {
      assert SkullsIn(r) == SkullsIn(r[..1]) == SkullsIn([]) == 0;
    }
  }

  predicate NoLowerCase(s: string) {
    forall i :: 0 <= i < |s| ==> !('a' <= s[i] <= 'z')
  }

  /**
   * The message: never empty and never holding a lower-case ASCII letter.
   * Without custom text it is the default phrase; with custom text it is
   * that text, character for character, with each lower-case letter raised
   * to its capital.
   */
  function BaseMessage(customText: string): (r: string)
    ensures r != [] && NoLowerCase(r)
    ensures customText == "" ==> r == DefaultMessage
    ensures customText != "" ==> |r| == |customText|
    ensures customText != "" ==> forall i :: 0 <= i < |r| ==>
      if 'a' <= customText[i] <= 'z' then r[i] as int == customText[i] as int - 32 else r[i] == customText[i]
  {
    if customText != "" then Upper(customText) else DefaultMessage
  }

  /**
   * The repeating unit of the scroll: the message, then `" /// "`, the
   * skull suffix of the level, and `" /// "` again.
   */
  function MarqueeUnit(customText: string, level: ThreatInput): (r: string)
    ensures |r| == |BaseMessage(customText)| + |GetSkulls(level)| + 10
    ensures r[..|BaseMessage(customText)|] == BaseMessage(customText)
    ensures r[|BaseMessage(customText)|..|r| - 5] == Separator + GetSkulls(level)
    ensures r[|r| - 5..] == Separator
  {
    var m, k := BaseMessage(customText), GetSkulls(level);
    var r := m + Separator + k + Separator;
    assert r[|m|..|r| - 5] == Separator + k;
    r
  }

  /** Skull glyphs of a concatenation add up. */
  lemma {:induction false} SkullsInAppend(a: string, b: string)
    ensures SkullsIn(a + b) == SkullsIn(a) + SkullsIn(b)
    decreases |b|
  {
    if b != [] {
      var c := a + b;
      assert c[..|c| - 1] == a + b[..|b| - 1];
      SkullsInAppend(a, b[..|b| - 1]);
    } else {
      assert a + b == a;
    }
  }

  lemma {:induction false} SkullsInNone(s: string)
    requires forall i :: 0 <= i < |s| ==> s[i] != Skull
    ensures SkullsIn(s) == 0
  {
    if s != [] {
      SkullsInNone(s[..|s| - 1]);
    }
  }

  /**
   * The unit carries the level's skulls on top of any the message itself
   * holds: the separators contribute none.
   */
  lemma MarqueeUnitSkulls(customText: string, level: ThreatInput)
    ensures SkullsIn(MarqueeUnit(customText, level))
      == SkullsIn(BaseMessage(customText)) + if SkullCount(level) < 0 then 0 else SkullCount(level)
  {
    var m, k := BaseMessage(customText), GetSkulls(level);
    assert MarqueeUnit(customText, level) == m + Separator + k + Separator;
    SkullsInNone(Separator);
    SkullsInAppend(m, Separator);
    SkullsInAppend(m + Separator, k);
    SkullsInAppend(m + Separator + k, Separator);
    SkullCountMatches(level);
  }
}
