// Name normalization (internal/roster/normalize.go): the letters of a name, its
// words, and its core without ornaments.  A name comes in as its decomposed runes,
// each already classified; decomposition, folding and the letter, digit and space
// tables of Unicode are not part of this model.
module Names {

  // A letter or a digit, in lower case.
  type Letter = c: char | c != ' ' witness 'a'

  type Word = w: string | w != "" && forall i :: 0 <= i < |w| ==> w[i] != ' ' witness "a"

  datatype Glyph = Mark | Kept(c: Letter) | Space | Dropped

  type Name = seq<Glyph>

  // ------------------------------------------------------------------ whole name

  ghost function Letters(name: Name): (s: string)
    ensures forall i :: 0 <= i < |s| ==> s[i] != ' '
  {
    if name == [] then ""
    else
      var last := name[|name| - 1];
      Letters(name[..|name| - 1]) + if last.Kept? then [last.c] else ""
  }

  method Normalize(name: Name) returns (s: string)
    ensures s == Letters(name)
  {
    s := "";
    for i := 0 to |name|
      invariant s == Letters(name[..i])
    {
      assert name[..i + 1][..i] == name[..i];
      match name[i] {
        case Kept(c) => s := s + [c];
        case _ =>
      }
    }
    assert name[..|name|] == name;
  }

  // ----------------------------------------------------------------------- words

  // The words so far, and whether the last one may still grow.
  datatype Reading = Reading(words: seq<Word>, open: bool)

  function Extended(words: seq<Word>, c: Letter): (r: seq<Word>)
    requires words != []
  {
    words[..|words| - 1] + [words[|words| - 1] + [c]]
  }

  // A space ends a word; a mark or an ornament does not.
  function Read(r: Reading, g: Glyph): Reading {
    match g
    case Mark => r
    case Dropped => r
    case Space => Reading(r.words, false)
    case Kept(c) => if r.open && r.words != [] then Reading(Extended(r.words, c), true)
                    else Reading(r.words + [[c]], true)
  }

  function ReadAll(name: Name): (r: Reading)
    ensures r.open ==> r.words != []
  {
    if name == [] then Reading([], false) else Read(ReadAll(name[..|name| - 1]), name[|name| - 1])
  }

  function Words(name: Name): seq<Word> {
    ReadAll(name).words
  }

  function Join(words: seq<string>): string {
    if words == [] then ""
    else if |words| == 1 then words[0]
    else Join(words[..|words| - 1]) + " " + words[|words| - 1]
  }

  function Concat(words: seq<string>): string {
    if words == [] then "" else Concat(words[..|words| - 1]) + words[|words| - 1]
  }

  // The whole name is its words with the boundaries taken out.
  lemma {:induction false} WholeNameIsItsWords(name: Name)
    ensures Letters(name) == Concat(Words(name))
    decreases |name|
  {
    if name != [] {
      var n := |name| - 1;
      WholeNameIsItsWords(name[..n]);
      var r := ReadAll(name[..n]);
      if name[n].Kept? {
        var next := Words(name);
        if r.open {
          assert next[..|next| - 1] == r.words[..|r.words| - 1];
        } else {
          assert next[..|next| - 1] == r.words;
        }
      }
    }
  }

  function TrimLeft(s: string): string {
    if s != "" && s[0] == ' ' then TrimLeft(s[1..]) else s
  }

  function TrimRight(s: string): string {
    if s != "" && s[|s| - 1] == ' ' then TrimRight(s[..|s| - 1]) else s
  }

  function TrimSpace(s: string): string {
    TrimRight(TrimLeft(s))
  }

  lemma {:induction false} JoinIsTight(words: seq<Word>)
    requires words != []
    ensures Join(words) != "" && Join(words)[0] != ' ' && Join(words)[|Join(words)| - 1] != ' '
    decreases |words|
  {
    if |words| > 1 {
      JoinIsTight(words[..|words| - 1]);
    }
  }

  // What the builder holds: the words joined, and a space once one has ended.
  function Built(r: Reading): string {
    Join(r.words) + if !r.open && r.words != [] then " " else ""
  }

  lemma BuiltGrows(r: Reading, g: Glyph)
    requires r.open ==> r.words != []
    ensures g.Kept? ==> Built(Read(r, g)) == Built(r) + [g.c]
    ensures g.Space? && r.open ==> Built(Read(r, g)) == Built(r) + " "
    ensures (g.Space? && !r.open) || g.Mark? || g.Dropped? ==> Built(Read(r, g)) == Built(r)
  {
    if g.Kept? {
      var next := Read(r, g).words;
      if r.open {
        assert next[..|next| - 1] == r.words[..|r.words| - 1];
      } else {
        assert next[..|next| - 1] == r.words;
      }
    }
  }

  method NormalizeTokens(name: Name) returns (s: string)
    ensures s == Join(Words(name))
  {
    var b, prevSpace := "", false;
    for i := 0 to |name|
      invariant b == Built(ReadAll(name[..i]))
      invariant prevSpace <==> !ReadAll(name[..i]).open && Words(name[..i]) != []
    {
      assert name[..i + 1][..i] == name[..i];
      BuiltGrows(ReadAll(name[..i]), name[i]);
      assert b != "" <==> Words(name[..i]) != [] by {
        if Words(name[..i]) != [] {
          JoinIsTight(Words(name[..i]));
        }
      }
      match name[i] {
        case Kept(c) =>
          b, prevSpace := b + [c], false;
        case Space =>
          if !prevSpace && |b| > 0 {
            b, prevSpace := b + " ", true;
          }
        case _ =>
      }
    }
    assert name[..|name|] == name;
    TrimmedIsJoined(ReadAll(name));
    s := TrimSpace(b);
  }

  lemma TrimmedIsJoined(r: Reading)
    requires r.open ==> r.words != []
    ensures TrimSpace(Built(r)) == Join(r.words)
  {
    if r.words != [] {
      JoinIsTight(r.words);
      var j := Join(r.words);
      assert TrimLeft(Built(r)) == Built(r);
      assert (j + " ")[..|j|] == j;
      assert TrimRight(j) == j;
    }
  }

  // -------------------------------------------------------------------- fields

  function GlyphOf(c: char): Glyph {
    if c == ' ' then Space else Kept(c)
  }

  function GlyphsOf(s: string): (name: Name)
    ensures |name| == |s|
  {
    if s == "" then [] else GlyphsOf(s[..|s| - 1]) + [GlyphOf(s[|s| - 1])]
  }

  // A string's maximal runs of characters that are not spaces.
  function Fields(s: string): seq<Word> {
    Words(GlyphsOf(s))
  }

  lemma {:induction false} FieldsGrow(s: string, w: string)
    requires forall i :: 0 <= i < |w| ==> w[i] != ' '
    requires w != "" && !ReadAll(GlyphsOf(s)).open
    ensures ReadAll(GlyphsOf(s + w)) == Reading(Fields(s) + [w], true)
    decreases |w|
  {
    var n := |w| - 1;
    assert (s + w)[..|s + w| - 1] == s + w[..n];
    assert GlyphsOf(s + w)[..|s + w| - 1] == GlyphsOf(s + w[..n]);
    if n == 0 {
      assert s + w[..n] == s && w == [w[0]];
    } else {
      FieldsGrow(s, w[..n]);
      var r := ReadAll(GlyphsOf(s + w[..n]));
      assert w == w[..n] + [w[n]];
      assert r.words[..|r.words| - 1] == Fields(s);
    }
  }

  lemma SpaceEndsAWord(s: string)
    ensures ReadAll(GlyphsOf(s + " ")) == Reading(Fields(s), false)
  {
    var t := s + " ";
    assert t[..|t| - 1] == s;
    assert GlyphsOf(t)[..|t| - 1] == GlyphsOf(s);
  }

  // Splitting a joined name gives its words back.
  lemma {:induction false} FieldsInvertJoin(words: seq<Word>)
    ensures Fields(Join(words)) == words
    ensures words != [] ==> ReadAll(GlyphsOf(Join(words))).open
    decreases |words|
  {
    if |words| == 1 {
      FieldsGrow("", words[0]);
      assert "" + words[0] == words[0];
    } else if |words| > 1 {
      var n := |words| - 1;
      FieldsInvertJoin(words[..n]);
      SpaceEndsAWord(Join(words[..n]));
      FieldsGrow(Join(words[..n]) + " ", words[n]);
      assert words == words[..n] + [words[n]];
    }
  }

  // What a name reads as plain text: marks and ornaments leave no trace.
  ghost function Plain(name: Name): string {
    if name == [] then ""
    else
      Plain(name[..|name| - 1]) +
      match name[|name| - 1] case Kept(c) => [c] case Space => " " case Mark => "" case Dropped => ""
  }

  lemma {:induction false} PlainReadsAlike(name: Name)
    ensures ReadAll(GlyphsOf(Plain(name))) == ReadAll(name)
    decreases |name|
  {
    if name != [] {
      var front, last := name[..|name| - 1], name[|name| - 1];
      PlainReadsAlike(front);
      if last.Kept? || last.Space? {
        var s := Plain(name);
        assert s[..|s| - 1] == Plain(front);
        assert GlyphsOf(s)[..|s| - 1] == GlyphsOf(Plain(front));
      } else {
        assert Plain(name) == Plain(front);
      }
    }
  }

  // A name's words are the fields of its plain text.
  lemma WordsAreFields(name: Name)
    ensures Words(name) == Fields(Plain(name))
  {
    PlainReadsAlike(name);
  }
}
