/** The BIP85 derivation path built at index.js:22, as a sequence of BIP32 path
    components, its rendering to the string passed to `derivePath`, and a parser
    for that string. */
module DerivationPath {
  import opened Common
  import opened Words
  import opened Decimal

  /** One BIP32 path step: a child number and whether it is marked hardened (`'`). */
  datatype Component = Component(index: nat, hardened: bool)

  type Path = seq<Component>

  /** The BIP85 purpose: the ASCII codes of "SEED" (83 69 69 68) read as one number. */
  const Bip85Purpose: nat := 83696968
  /** The BIP85 application number for BIP39 mnemonics. */
  const Bip39Application: nat := 39
  /** The BIP39 language slot, written as the bare `0` in the template. */
  const LanguageSlot: nat := 0

  /** The path of index.js:22, `m/83696968'/39'/0/${wordCount}/${bip85Index}`:
      only the first two components carry the hardened mark. */
  function BuildPath(wordCount: nat, index: nat): Path
  {
    [ Component(Bip85Purpose, true),
      Component(Bip39Application, true),
      Component(LanguageSlot, false),
      Component(wordCount, false),
      Component(index, false) ]
  }

  /** The path that BIP85's BIP39 application prescribes,
      m/83696968'/39'/{language}'/{words}'/{index}': every component hardened. */
  function StandardPath(language: nat, wordCount: nat, index: nat): Path
  {
    [ Component(Bip85Purpose, true),
      Component(Bip39Application, true),
      Component(language, true),
      Component(wordCount, true),
      Component(index, true) ]
  }

  function RenderComponent(c: Component): string
  {
    NatToDecimal(c.index) + (if c.hardened then "'" else "")
  }

  /** The path pieces between the slashes: "m" and then one piece per component. */
  function Pieces(p: Path): (parts: seq<string>)
    ensures |parts| == |p| + 1
  {
    ["m"] + seq(|p|, i requires 0 <= i < |p| => RenderComponent(p[i]))
  }

  /** The BIP32 path string, "m/<c1>/<c2>/...". */
  function RenderPath(p: Path): string
  {
    Join(Pieces(p), '/')
  }

  /** Reads one rendered component: decimal digits, optionally followed by `'`. */
  function ParseComponent(t: string): Option<Component>
  {
    if |t| > 0 && t[|t| - 1] == '\'' then
      match ParseDecimal(t[..|t| - 1])
      case Some(n) => Some(Component(n, true))
      case None => None
    else
      match ParseDecimal(t)
      case Some(n) => Some(Component(n, false))
      case None => None
  }

  function ParseComponents(ts: seq<string>): Option<Path>
    decreases |ts|
  {
    if ts == [] then Some([])
    else
      match (ParseComponent(ts[0]), ParseComponents(ts[1..]))
      case (Some(c), Some(cs)) => Some([c] + cs)
      case _ => None
  }

  /** Reads a path string of the form "m/<c1>/.../<cn>". */
  function ParsePath(s: string): Option<Path>
  {
    var parts := Split(s, '/');
    if parts[0] == "m" then ParseComponents(parts[1..]) else None
  }

  lemma ParseRenderComponent(c: Component)
    ensures ParseComponent(RenderComponent(c)) == Some(c)
  {
    var d := NatToDecimal(c.index);
    ParseNatToDecimal(c.index);
    if c.hardened {
      assert RenderComponent(c)[..|RenderComponent(c)| - 1] == d;
    } else {
      assert RenderComponent(c) == d;
    }
  }

  lemma {:induction false} ParseRenderComponents(p: Path)
    ensures ParseComponents(seq(|p|, i requires 0 <= i < |p| => RenderComponent(p[i]))) == Some(p)
    decreases |p|
  {
    var ts := seq(|p|, i requires 0 <= i < |p| => RenderComponent(p[i]));
    if p != [] {
      ParseRenderComponent(p[0]);
      ParseRenderComponents(p[1..]);
      assert ts[1..] == seq(|p[1..]|, i requires 0 <= i < |p[1..]| => RenderComponent(p[1..][i]));
      assert [p[0]] + p[1..] == p;
    }
  }

  lemma PiecesNoSlash(p: Path)
    ensures NoSeparator(Pieces(p), '/')
  {
    forall i | 0 <= i < |Pieces(p)|
      ensures '/' !in Pieces(p)[i]
    {
      if i > 0 {
        var c := p[i - 1];
        var d := NatToDecimal(c.index);
        assert Pieces(p)[i] == d + (if c.hardened then "'" else "");
        assert forall k :: 0 <= k < |d| ==> d[k] != '/';
      }
    }
  }

  /** The rendered path string determines the path: parsing gives it back. */
  lemma ParseRenderPath(p: Path)
    ensures ParsePath(RenderPath(p)) == Some(p)
  {
    PiecesNoSlash(p);
    SplitJoin(Pieces(p), '/');
    ParseRenderComponents(p);
    assert Pieces(p)[1..] == seq(|p|, i requires 0 <= i < |p| => RenderComponent(p[i]));
  }

  lemma PurposeDigits()
    ensures NatToDecimal(Bip85Purpose) == "83696968"
  {
    assert NatToDecimal(8) == "8";
    assert NatToDecimal(83) == "83";
    assert NatToDecimal(836) == "836";
    assert NatToDecimal(8369) == "8369";
    assert NatToDecimal(83696) == "83696";
    assert NatToDecimal(836969) == "836969";
    assert NatToDecimal(8369696) == "8369696";
  }

  lemma BuildPathPieces(wordCount: nat, index: nat)
    ensures Pieces(BuildPath(wordCount, index))
         == ["m", "83696968'", "39'", "0", NatToDecimal(wordCount), NatToDecimal(index)]
  {
    var p := BuildPath(wordCount, index);
    var parts := Pieces(p);
    PurposeDigits();
    assert NatToDecimal(3) == "3";
    assert NatToDecimal(39) == "39";
    assert NatToDecimal(0) == "0";
    assert parts[1] == RenderComponent(p[0]) == "83696968'";
    assert parts[2] == RenderComponent(p[1]) == "39'";
    assert parts[3] == RenderComponent(p[2]) == "0";
    assert parts[4] == RenderComponent(p[3]) == NatToDecimal(wordCount);
    assert parts[5] == RenderComponent(p[4]) == NatToDecimal(index);
  }

  lemma JoinBuiltPieces(w: string, i: string)
    ensures Join(["m", "83696968'", "39'", "0", w, i], '/') == "m/83696968'/39'/0/" + w + "/" + i
  {
    var j4 := Join([w, i], '/');
    assert j4 == w + "/" + i by { JoinCons(w, [i], '/'); }
    var j3 := Join(["0", w, i], '/');
    assert j3 == "0" + "/" + j4 by { JoinCons("0", [w, i], '/'); }
    var j2 := Join(["39'", "0", w, i], '/');
    assert j2 == "39'" + "/" + j3 by { JoinCons("39'", ["0", w, i], '/'); }
    var j1 := Join(["83696968'", "39'", "0", w, i], '/');
    assert j1 == "83696968'" + "/" + j2 by { JoinCons("83696968'", ["39'", "0", w, i], '/'); }
    assert Join(["m", "83696968'", "39'", "0", w, i], '/') == "m" + "/" + j1
      by { JoinCons("m", ["83696968'", "39'", "0", w, i], '/'); }
    PathPrefixText(w + "/" + i);
  }

  lemma PathPrefixText(tail: string)
    ensures "m" + "/" + ("83696968'" + "/" + ("39'" + "/" + ("0" + "/" + tail))) == "m/83696968'/39'/0/" + tail
  {
  }

  /** The string of index.js:22 is exactly m/83696968'/39'/0/<wordCount>/<index>. */
  lemma BuildPathRendering(wordCount: nat, index: nat)
    ensures RenderPath(BuildPath(wordCount, index))
         == "m/83696968'/39'/0/" + NatToDecimal(wordCount) + "/" + NatToDecimal(index)
  {
    BuildPathPieces(wordCount, index);
    JoinBuiltPieces(NatToDecimal(wordCount), NatToDecimal(index));
  }

  /** The path of index.js:22 has the BIP85 child numbers for language 0, but marks only
      the purpose and the application hardened, where BIP85 hardens all five. */
  lemma BuildPathDeviatesFromStandard(wordCount: nat, index: nat)
    ensures var built, standard := BuildPath(wordCount, index), StandardPath(0, wordCount, index);
      |built| == |standard| == 5 &&
      (forall k :: 0 <= k < 5 ==> built[k].index == standard[k].index) &&
      (forall k :: 0 <= k < 5 ==> (built[k].hardened <==> k < 2)) &&
      (forall k :: 0 <= k < 5 ==> (built[k].hardened == standard[k].hardened <==> k < 2))
  {
  }

  /** Two different indices give two different path strings for the same word count. */
  lemma DistinctIndicesDistinctPaths(wordCount: nat, i: nat, j: nat)
    requires i != j
    ensures RenderPath(BuildPath(wordCount, i)) != RenderPath(BuildPath(wordCount, j))
  {
    ParseRenderPath(BuildPath(wordCount, i));
    ParseRenderPath(BuildPath(wordCount, j));
  }
}
