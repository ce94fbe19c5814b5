/**
 * Cache busting for the static frontend: every `href="V"` or `src="V"` whose
 * value V ends in `.css` or `.js` is rewritten to point at `/static/...` with
 * a `?v=` query holding a short hash of the file's contents, so that a
 * browser fetches the new file after it changes.
 *
 * The rewrite is one regular-expression substitution over the page,
 * `(href|src)="([^"]+\.(css|js))"`, scanned left to right without overlaps.
 * The file system and MD5 are parameters: `files` maps a path below the
 * frontend directory to the file's bytes (None when there is no such file),
 * and `md5Hex` stands for the hex digest of a byte string.
 */
module CacheBusting {
  import opened Wrappers
  import opened Text

  newtype Byte = x: int | 0 <= x < 256

  const StaticPrefix: string := "/static/"

  const Quote: char := '"'

  /** The 32-character hex digest MD5 returns, for every input. */
  ghost predicate IsDigest(md5Hex: seq<Byte> -> string) {
    forall b :: |md5Hex(b)| == 32
  }

  /** `hash_file`: the first 8 hex digits of the file's MD5, or "" when the file is missing. */
  function HashFile(contents: Option<seq<Byte>>, md5Hex: seq<Byte> -> string): (h: string)
    requires contents.Some? ==> |md5Hex(contents.value)| == 32
    ensures h == "" <==> contents.None?
    ensures |h| == 0 || |h| == 8
    ensures contents.Some? ==> h == md5Hex(contents.value)[..8] && h <= md5Hex(contents.value)
  {
    match contents
    case None => ""
    case Some(bytes) => md5Hex(bytes)[..8]
  }

  // ---------------------------------------------------------------------------
  // What the pattern matches

  datatype Attr = Href | Src

  function AttrName(a: Attr): string {
    match a
    case Href => "href"
    case Src => "src"
  }

  /** An attribute and its value, as the two groups of one match. */
  datatype Ref = Ref(attr: Attr, value: string)

  /** The text of a reference in the page: `attr="value"`. */
  /** The number of characters `attr="value"` takes up. */
  function Span(r: Ref): nat {
    |AttrName(r.attr)| + |r.value| + 3
  }

  function Source(r: Ref): (src: string)
    ensures |src| == Span(r)
  {
    JoinFour(AttrName(r.attr), "=\"", r.value, "\"");
    Join([AttrName(r.attr), "=\"", r.value, "\""])
  }

  lemma SourceText(r: Ref)
    ensures Source(r) == AttrName(r.attr) + "=\"" + r.value + [Quote]
  {
    JoinFour(AttrName(r.attr), "=\"", r.value, "\"");
  }

  /** t occurs in s at position i. */
  predicate HasAt(s: string, i: nat, t: string) {
    i + |t| <= |s| && s[i..i + |t|] == t
  }

  predicate NoQuote(v: string) {
    forall k | 0 <= k < |v| :: v[k] != Quote
  }

  /** v ends in `.css`. */
  predicate CssName(v: string) {
    |v| >= 4 && v[|v| - 4] == '.' && v[|v| - 3] == 'c' && v[|v| - 2] == 's' && v[|v| - 1] == 's'
  }

  /** v ends in `.js`. */
  predicate JsName(v: string) {
    |v| >= 3 && v[|v| - 3] == '.' && v[|v| - 2] == 'j' && v[|v| - 1] == 's'
  }

  /** `.+\.(css|js)`: a stylesheet or script name, with at least one character before the extension. */
  predicate AssetName(v: string) {
    (|v| >= 5 && CssName(v)) || (|v| >= 4 && JsName(v))
  }

  /** `[^"]+\.(css|js)`: an asset name with no quote anywhere. */
  predicate IsAsset(v: string) {
    NoQuote(v) && AssetName(v)
  }

  /** `(href|src)="` at position i, and which of the two. */
  function OpenerAt(s: string, i: nat): Option<Attr>
    requires i <= |s|
  {
    if i + 6 <= |s| && s[i] == 'h' && s[i + 1] == 'r' && s[i + 2] == 'e' && s[i + 3] == 'f'
      && s[i + 4] == '=' && s[i + 5] == Quote
    then Some(Href)
    else if i + 5 <= |s| && s[i] == 's' && s[i + 1] == 'r' && s[i + 2] == 'c'
      && s[i + 3] == '=' && s[i + 4] == Quote
    then Some(Src)
    else None
  }

  /** The opener found is `href="` or `src="` in the text, and either of them is found. */
  lemma OpenerAtIs(s: string, i: nat)
    requires i <= |s|
    ensures OpenerAt(s, i).Some? <==> HasAt(s, i, "href=\"") || HasAt(s, i, "src=\"")
    ensures OpenerAt(s, i).Some? ==> HasAt(s, i, AttrName(OpenerAt(s, i).value) + "=\"")
  {
    assert AttrName(Href) + "=\"" == "href=\"" && AttrName(Src) + "=\"" == "src=\"";
    if HasAt(s, i, AttrName(Href) + "=\"") {
      OpenerOf(s, i, Href);
    }
    if HasAt(s, i, AttrName(Src) + "=\"") {
      OpenerOf(s, i, Src);
    }
    if OpenerAt(s, i) == Some(Href) {
      assert s[i..i + 6] == "href=\"";
    } else if OpenerAt(s, i) == Some(Src) {
      assert s[i..i + 5] == "src=\"";
    }
  }

  /** The position of the first quote at or after j, or the end of the text. */
  function NextQuote(s: string, j: nat): (q: nat)
    requires j <= |s|
    ensures j <= q <= |s|
    decreases |s| - j
  {
    if j == |s| || s[j] == Quote then j else NextQuote(s, j + 1)
  }

  lemma {:induction false} NextQuoteFirst(s: string, j: nat)
    requires j <= |s|
    ensures j <= NextQuote(s, j) <= |s|
    ensures forall k | j <= k < NextQuote(s, j) :: s[k] != Quote
    ensures NextQuote(s, j) == |s| || s[NextQuote(s, j)] == Quote
    decreases |s| - j
  {
    if j < |s| && s[j] != Quote {
      NextQuoteFirst(s, j + 1);
    }
  }

  lemma NextQuoteIs(s: string, j: nat, q: nat)
    requires j <= q <= |s|
    requires forall k | j <= k < q :: s[k] != Quote
    requires q == |s| || s[q] == Quote
    ensures NextQuote(s, j) == q
  {
    NextQuoteFirst(s, j);
  }

  /**
   * The match the pattern finds when it is tried at position i: the value runs
   * to the next quote (`[^"]` cannot pass one), and it must end in an
   * extension there, since the pattern closes with a quote.
   */
  function RefAt(s: string, i: nat): (r: Option<Ref>)
    requires i <= |s|
    ensures r.Some? ==> i + Span(r.value) <= |s|
  {
    match OpenerAt(s, i)
    case None => None
    case Some(a) =>
      var j := i + |AttrName(a)| + 2;
      var q := NextQuote(s, j);
      if q < |s| && AssetName(s[j..q]) then Some(Ref(a, s[j..q])) else None
  }

  lemma HasAtSplit(s: string, i: nat, t: string, u: string)
    requires HasAt(s, i, t + u)
    ensures HasAt(s, i, t) && HasAt(s, i + |t|, u)
  {
    assert s[i..i + |t|] == (t + u)[..|t|];
    assert s[i + |t|..i + |t| + |u|] == (t + u)[|t|..];
  }

  lemma SourceParts(s: string, i: nat, r: Ref)
    requires HasAt(s, i, Source(r))
    ensures HasAt(s, i, AttrName(r.attr) + "=\"")
    ensures HasAt(s, i + |AttrName(r.attr)| + 2, r.value + [Quote])
  {
    SourceText(r);
    ConcatAssoc(AttrName(r.attr) + "=\"", r.value, [Quote]);
    HasAtSplit(s, i, AttrName(r.attr) + "=\"", r.value + [Quote]);
  }

  /** The opener of either attribute is recognised as that attribute. */
  lemma OpenerOf(s: string, i: nat, a: Attr)
    requires HasAt(s, i, AttrName(a) + "=\"")
    ensures OpenerAt(s, i) == Some(a)
  {
    var t := AttrName(a) + "=\"";
    forall k | 0 <= k < |t| ensures s[i + k] == t[k] {
      assert s[i + k] == s[i..i + |t|][k];
    }
    if a == Href {
      assert t == "href=\"";
      assert s[i] == 'h' && s[i + 1] == 'r' && s[i + 2] == 'e' && s[i + 3] == 'f' && s[i + 4] == '=' && s[i + 5] == Quote;
    } else {
      assert t == "src=\"";
      assert s[i] == 's' && s[i + 1] == 'r' && s[i + 2] == 'c' && s[i + 3] == '=' && s[i + 4] == Quote;
    }
  }

  /** A quote-free value followed by a quote ends at the next quote. */
  lemma ValueAt(s: string, j: nat, v: string)
    requires HasAt(s, j, v + [Quote]) && NoQuote(v)
    ensures NextQuote(s, j) == j + |v|
    ensures s[j..j + |v|] == v
  {
    var q := j + |v|;
    forall k | j <= k < q ensures s[k] != Quote {
      assert s[k] == (v + [Quote])[k - j] == v[k - j];
    }
    assert s[q] == (v + [Quote])[|v|] == Quote;
    NextQuoteIs(s, j, q);
    assert s[j..q] == (v + [Quote])[..|v|] == v;
  }

  /** A qualifying `attr="value"` at i is the match found there. */
  lemma SourceIsMatch(s: string, i: nat, r: Ref)
    requires HasAt(s, i, Source(r)) && IsAsset(r.value)
    ensures RefAt(s, i) == Some(r)
  {
    SourceParts(s, i, r);
    MatchFromParts(s, i, r);
  }

  lemma MatchFromParts(s: string, i: nat, r: Ref)
    requires HasAt(s, i, AttrName(r.attr) + "=\"") && IsAsset(r.value)
    requires HasAt(s, i + |AttrName(r.attr)| + 2, r.value + [Quote])
    ensures RefAt(s, i) == Some(r)
  {
    var j := i + |AttrName(r.attr)| + 2;
    OpenerOf(s, i, r.attr);
    ValueAt(s, j, r.value);
    RefAtFrom(s, i, r.attr, j, j + |r.value|, r.value);
  }

  /** The opener, the next quote and a qualifying value between them make the match. */
  lemma RefAtFrom(s: string, i: nat, a: Attr, j: nat, q: nat, v: string)
    requires i <= |s| && OpenerAt(s, i) == Some(a) && j == i + |AttrName(a)| + 2
    requires j <= |s| && NextQuote(s, j) == q && q < |s| && q - j == |v| && s[j..q] == v && AssetName(v)
    ensures RefAt(s, i) == Some(Ref(a, v))
  {
  }

  /** The match found at i stands there as `attr="value"`, with a qualifying value. */
  lemma MatchIsSource(s: string, i: nat)
    requires i <= |s| && RefAt(s, i).Some?
    ensures HasAt(s, i, Source(RefAt(s, i).value)) && IsAsset(RefAt(s, i).value.value)
  {
    var a := OpenerAt(s, i).value;
    var j := i + |AttrName(a)| + 2;
    var q := NextQuote(s, j);
    OpenerAtIs(s, i);
    NextQuoteFirst(s, j);
    assert RefAt(s, i).value == Ref(a, s[j..q]);
    QuotedValue(s, i, a, j, q);
  }

  /** An opener, then quote-free text up to a quote: that is `attr="value"` for the text between. */
  lemma QuotedValue(s: string, i: nat, a: Attr, j: nat, q: nat)
    requires HasAt(s, i, AttrName(a) + "=\"") && j == i + |AttrName(a)| + 2
    requires j <= q < |s| && s[q] == Quote && forall k | j <= k < q :: s[k] != Quote
    requires AssetName(s[j..q])
    ensures HasAt(s, i, Source(Ref(a, s[j..q]))) && IsAsset(s[j..q])
  {
    SliceNoQuote(s, j, q);
    QuotedSource(s, i, a, j, q);
  }

  lemma SliceNoQuote(s: string, j: nat, q: nat)
    requires j <= q <= |s| && forall k | j <= k < q :: s[k] != Quote
    ensures NoQuote(s[j..q])
  {
    var v := s[j..q];
    forall k | 0 <= k < |v| ensures v[k] != Quote {
      assert v[k] == s[j + k];
    }
  }

  lemma QuotedSource(s: string, i: nat, a: Attr, j: nat, q: nat)
    requires HasAt(s, i, AttrName(a) + "=\"") && j == i + |AttrName(a)| + 2
    requires j <= q < |s| && s[q] == Quote
    ensures HasAt(s, i, Source(Ref(a, s[j..q])))
  {
    SourceText(Ref(a, s[j..q]));
    assert s[i..q + 1] == s[i..j] + s[j..q] + [s[q]];
  }

  /** The pattern matches at i with groups r exactly when `attr="value"` stands there and the value qualifies. */
  lemma RefAtIsMatch(s: string, i: nat, r: Ref)
    requires i <= |s|
    ensures RefAt(s, i) == Some(r) <==> HasAt(s, i, Source(r)) && IsAsset(r.value)
  {
    if HasAt(s, i, Source(r)) && IsAsset(r.value) {
      SourceIsMatch(s, i, r);
    }
    if RefAt(s, i) == Some(r) {
      MatchIsSource(s, i);
    }
  }

  // ---------------------------------------------------------------------------
  // The rewrite

  /** `match.group(2)[len("/static/"):]`: the first eight characters go, whatever they are. */
  function StripPrefix(v: string): (p: string)
    ensures |v| >= |StaticPrefix| ==> v == v[..|StaticPrefix|] + p
    ensures |v| < |StaticPrefix| ==> p == ""
  {
    if |v| >= |StaticPrefix| then v[|StaticPrefix|..] else ""
  }

  /** The replacement for one match, `attr="/static/<path>?v=<hash>"`. */
  function Replacement(r: Ref, files: string -> Option<seq<Byte>>, md5Hex: seq<Byte> -> string): string
    requires IsDigest(md5Hex)
  {
    var path := StripPrefix(r.value);
    Join([AttrName(r.attr), "=\"/static/", path, "?v=", HashFile(files(path), md5Hex), "\""])
  }

  /**
   * `re.sub` with a replacement function, from position i: the pattern is
   * tried at i; a match is replaced by `sub` of it and skipped over, and
   * otherwise the character at i is copied.
   */
  function RewriteFrom(s: string, i: nat, sub: Ref -> string): string
    requires i <= |s|
    decreases |s| - i
  {
    if i == |s| then ""
    else
      var p := PieceAt(s, i);
      PieceOutput(p, sub) + RewriteFrom(s, i + Width(p), sub)
  }

  /** `apply_cache_busting`: the substitution with `replace` as the replacement function. */
  function ApplyCacheBusting(html: string, files: string -> Option<seq<Byte>>, md5Hex: seq<Byte> -> string): string
    requires IsDigest(md5Hex)
  {
    RewriteFrom(html, 0, r => Replacement(r, files, md5Hex))
  }

  // ---------------------------------------------------------------------------
  // The page as pieces: the matches, and the characters between them

  datatype Piece = Char(c: char) | Asset(r: Ref)

  /** The piece starting at position i: the match there, or else the one character. */
  function PieceAt(s: string, i: nat): (p: Piece)
    requires i < |s|
    ensures 0 < Width(p) && i + Width(p) <= |s|
  {
    match RefAt(s, i)
    case Some(r) => Asset(r)
    case None => Char(s[i])
  }

  /** The piece stands in the page where it was cut, and a match piece qualifies. */
  lemma PieceAtText(s: string, i: nat)
    requires i < |s|
    ensures HasAt(s, i, PieceText(PieceAt(s, i)))
    ensures PieceAt(s, i).Asset? ==> IsAsset(PieceAt(s, i).r.value)
  {
    match RefAt(s, i)
    case Some(r) =>
      MatchIsSource(s, i);
    case None =>
      assert s[i..i + 1] == [s[i]];
  }

  /** How the substitution cuts the page up, from position i on. */
  function PiecesFrom(s: string, i: nat): seq<Piece>
    requires i <= |s|
    decreases |s| - i
  {
    if i == |s| then []
    else
      var p := PieceAt(s, i);
      [p] + PiecesFrom(s, i + Width(p))
  }

  function Pieces(s: string): seq<Piece> {
    PiecesFrom(s, 0)
  }

  /** The number of page characters a piece covers. */
  function Width(p: Piece): nat {
    match p
    case Char(_) => 1
    case Asset(r) => Span(r)
  }

  function PieceText(p: Piece): (t: string)
    ensures |t| == Width(p)
  {
    match p
    case Char(c) => [c]
    case Asset(r) => Source(r)
  }

  /** The page text the pieces came from. */
  function Unparse(ps: seq<Piece>): string {
    if ps == [] then "" else PieceText(ps[0]) + Unparse(ps[1..])
  }

  function PieceOutput(p: Piece, sub: Ref -> string): string {
    match p
    case Char(c) => [c]
    case Asset(r) => sub(r)
  }

  /** The output for the pieces: characters as they are, each match by its replacement. */
  function RenderPieces(ps: seq<Piece>, sub: Ref -> string): string {
    if ps == [] then "" else PieceOutput(ps[0], sub) + RenderPieces(ps[1..], sub)
  }

  /** The pieces from position i on put back together give the page from i on. */
  predicate UnparsesFrom(s: string, i: nat)
    requires i <= |s|
  {
    Unparse(PiecesFrom(s, i)) == s[i..]
  }

  lemma {:induction false} PiecesFromUnparse(s: string, i: nat)
    requires i <= |s|
    ensures UnparsesFrom(s, i)
    decreases |s| - i
  {
    if i < |s| {
      var e := i + Width(PieceAt(s, i));
      PiecesFromUnparse(s, e);
      UnparseStep(s, i, e);
    } else {
      PiecesEnd(s, i);
    }
  }

  lemma PiecesEnd(s: string, i: nat)
    requires i == |s|
    ensures UnparsesFrom(s, i)
  {
  }

  lemma UnparseStep(s: string, i: nat, e: nat)
    requires i < |s| && e == i + Width(PieceAt(s, i)) && UnparsesFrom(s, e)
    ensures UnparsesFrom(s, i)
  {
    PiecesStepTo(s, i, e);
    PieceTextAt(s, i, e);
    SliceSplit(s, i, e);
    UnparseGlue(PiecesFrom(s, i), PieceAt(s, i), PiecesFrom(s, e), s[i..e], s[e..], s[i..]);
  }

  lemma PiecesStepTo(s: string, i: nat, e: nat)
    requires i < |s| && e == i + Width(PieceAt(s, i))
    ensures PiecesFrom(s, i) == [PieceAt(s, i)] + PiecesFrom(s, e)
  {
    PiecesStep(s, i);
  }

  lemma PieceTextAt(s: string, i: nat, e: nat)
    requires i < |s| && e == i + Width(PieceAt(s, i))
    ensures PieceText(PieceAt(s, i)) == s[i..e]
  {
    PieceAtText(s, i);
  }

  lemma UnparseGlue(ps: seq<Piece>, p: Piece, rest: seq<Piece>, a: string, b: string, c: string)
    requires ps == [p] + rest && PieceText(p) == a && Unparse(rest) == b && c == a + b
    ensures Unparse(ps) == c
  {
    UnparseCons(p, rest);
  }

  lemma PiecesStep(s: string, i: nat)
    requires i < |s|
    ensures PiecesFrom(s, i) == [PieceAt(s, i)] + PiecesFrom(s, i + Width(PieceAt(s, i)))
  {
  }

  lemma UnparseCons(p: Piece, rest: seq<Piece>)
    ensures Unparse([p] + rest) == PieceText(p) + Unparse(rest)
  {
    assert ([p] + rest)[0] == p && ([p] + rest)[1..] == rest;
  }

  lemma SliceSplit(s: string, i: nat, e: nat)
    requires i <= e <= |s|
    ensures s[i..] == s[i..e] + s[e..]
  {
  }

  lemma PiecesUnparse(s: string)
    ensures Unparse(Pieces(s)) == s
  {
    PiecesFromUnparse(s, 0);
  }

  /** From position i on, the substitution outputs the pieces, each as `sub` renders it. */
  predicate RendersFrom(s: string, i: nat, sub: Ref -> string)
    requires i <= |s|
  {
    RewriteFrom(s, i, sub) == RenderPieces(PiecesFrom(s, i), sub)
  }

  /** The substitution replaces the matches and copies everything between them unchanged. */
  lemma {:induction false} RewriteFromIsRender(s: string, i: nat, sub: Ref -> string)
    requires i <= |s|
    ensures RendersFrom(s, i, sub)
    decreases |s| - i
  {
    if i < |s| {
      var e := i + Width(PieceAt(s, i));
      RewriteFromIsRender(s, e, sub);
      RenderStep(s, i, e, sub);
    } else {
      RenderEnd(s, i, sub);
    }
  }

  lemma RenderEnd(s: string, i: nat, sub: Ref -> string)
    requires i == |s|
    ensures RendersFrom(s, i, sub)
  {
  }

  lemma RenderStep(s: string, i: nat, e: nat, sub: Ref -> string)
    requires i < |s| && e == i + Width(PieceAt(s, i)) && RendersFrom(s, e, sub)
    ensures RendersFrom(s, i, sub)
  {
    PiecesStep(s, i);
    RewriteStep(s, i, sub);
    RenderCons(PieceAt(s, i), PiecesFrom(s, e), sub);
  }

  lemma RenderCons(p: Piece, rest: seq<Piece>, sub: Ref -> string)
    ensures RenderPieces([p] + rest, sub) == PieceOutput(p, sub) + RenderPieces(rest, sub)
  {
    assert ([p] + rest)[0] == p && ([p] + rest)[1..] == rest;
  }

  lemma RewriteIsRender(html: string, files: string -> Option<seq<Byte>>, md5Hex: seq<Byte> -> string)
    requires IsDigest(md5Hex)
    ensures ApplyCacheBusting(html, files, md5Hex) == RenderPieces(Pieces(html), r => Replacement(r, files, md5Hex))
    ensures Unparse(Pieces(html)) == html
  {
    RewriteFromIsRender(html, 0, r => Replacement(r, files, md5Hex));
    PiecesUnparse(html);
  }

  // ---------------------------------------------------------------------------
  // Properties

  /** The substitution from i is the text up to j followed by the substitution from j. */
  predicate CopiesTo(s: string, i: nat, j: nat, sub: Ref -> string)
    requires i <= j <= |s|
  {
    RewriteFrom(s, i, sub) == s[i..j] + RewriteFrom(s, j, sub)
  }

  /** Where no match starts, the substitution copies the text. */
  lemma {:induction false} CopyFrom(s: string, i: nat, j: nat, sub: Ref -> string)
    requires i <= j <= |s|
    requires forall k | i <= k < j :: RefAt(s, k).None?
    ensures CopiesTo(s, i, j, sub)
    decreases j - i
  {
    if i < j {
      CopyFrom(s, i + 1, j, sub);
      CopyStep(s, i, j, sub);
    } else {
      CopyNone(s, i, sub);
    }
  }

  lemma CopyNone(s: string, i: nat, sub: Ref -> string)
    requires i <= |s|
    ensures CopiesTo(s, i, i, sub)
  {
    assert s[i..i] == [];
  }

  /** Extending a copied stretch by the one character before it. */
  lemma CopyStep(s: string, i: nat, j: nat, sub: Ref -> string)
    requires i < j <= |s| && RefAt(s, i).None? && CopiesTo(s, i + 1, j, sub)
    ensures CopiesTo(s, i, j, sub)
  {
    CopyOne(s, i, sub);
    SliceCons(s, i, j);
    Prepend(RewriteFrom(s, i, sub), s[i], RewriteFrom(s, i + 1, sub), s[i + 1..j], RewriteFrom(s, j, sub), s[i..j]);
  }

  /** Where no match starts, the character is copied and the substitution goes on at the next one. */
  lemma CopyOne(s: string, i: nat, sub: Ref -> string)
    requires i < |s| && RefAt(s, i).None?
    ensures RewriteFrom(s, i, sub) == [s[i]] + RewriteFrom(s, i + 1, sub)
  {
    PieceIsChar(s, i);
    RewriteStep(s, i, sub);
  }

  lemma SliceCons(s: string, i: nat, j: nat)
    requires i < j <= |s|
    ensures s[i..j] == [s[i]] + s[i + 1..j]
  {
  }

  lemma Prepend(x: string, c: char, u: string, m: string, t: string, w: string)
    requires x == [c] + u && u == m + t && w == [c] + m
    ensures x == w + t
  {
  }

  /** Neither `href="` nor `src="` starts anywhere in [i, j). */
  predicate OpenerFree(s: string, i: nat, j: nat) {
    forall k | i <= k < j :: !HasAt(s, k, "href=\"") && !HasAt(s, k, "src=\"")
  }

  /** Where no attribute opener stands, the substitution copies the text. */
  lemma CopyPlain(s: string, i: nat, j: nat, sub: Ref -> string)
    requires i <= j <= |s| && OpenerFree(s, i, j)
    ensures RewriteFrom(s, i, sub) == s[i..j] + RewriteFrom(s, j, sub)
  {
    forall k | i <= k < j ensures RefAt(s, k).None? {
      OpenerAtIs(s, k);
    }
    CopyFrom(s, i, j, sub);
  }

  /** With no attribute opener from e on, the rest of the text is copied as it is. */
  lemma CopyTail(s: string, e: nat, sub: Ref -> string)
    requires e <= |s| && OpenerFree(s, e, |s|)
    ensures RewriteFrom(s, e, sub) == s[e..]
  {
    CopyPlain(s, e, |s|, sub);
    assert s[e..|s|] + "" == s[e..];
  }

  /** A page without a match anywhere comes back as it is. */
  lemma NoMatchUnchanged(html: string, files: string -> Option<seq<Byte>>, md5Hex: seq<Byte> -> string)
    requires IsDigest(md5Hex)
    requires forall k | 0 <= k < |html| :: RefAt(html, k).None?
    ensures ApplyCacheBusting(html, files, md5Hex) == html
  {
    CopyFrom(html, 0, |html|, r => Replacement(r, files, md5Hex));
    assert html[0..|html|] == html;
  }

  /** At a qualifying reference the substitution outputs its replacement and goes on after it. */
  lemma RewriteAtMatch(s: string, j: nat, e: nat, r: Ref, sub: Ref -> string)
    requires HasAt(s, j, Source(r)) && IsAsset(r.value) && e == j + Span(r)
    ensures RewriteFrom(s, j, sub) == sub(r) + RewriteFrom(s, e, sub)
  {
    SourceIsMatch(s, j, r);
    RewriteAtRef(s, j, e, r, sub);
  }

  lemma RewriteAtRef(s: string, j: nat, e: nat, r: Ref, sub: Ref -> string)
    requires j <= |s| && RefAt(s, j) == Some(r) && e == j + Span(r)
    ensures StepsTo(s, j, sub(r), e, sub)
  {
    PieceIsAsset(s, j, r);
    RewriteStep(s, j, sub);
  }

  /** From i the substitution outputs o and goes on at e. */
  predicate StepsTo(s: string, i: nat, o: string, e: nat, sub: Ref -> string)
    requires i <= |s|
  {
    e <= |s| && RewriteFrom(s, i, sub) == o + RewriteFrom(s, e, sub)
  }

  lemma PieceIsAsset(s: string, j: nat, r: Ref)
    requires j <= |s| && RefAt(s, j) == Some(r)
    ensures j < |s| && PieceAt(s, j) == Asset(r)
  {
  }

  lemma PieceIsChar(s: string, i: nat)
    requires i < |s| && RefAt(s, i).None?
    ensures PieceAt(s, i) == Char(s[i])
  {
  }

  /** One step of the substitution: the output for the piece at i, then the rest from where the piece ends. */
  lemma RewriteStep(s: string, i: nat, sub: Ref -> string)
    requires i < |s|
    ensures StepsTo(s, i, PieceOutput(PieceAt(s, i), sub), i + Width(PieceAt(s, i)), sub)
  {
  }

  /**
   * One qualifying reference from j to e, and no attribute opener anywhere
   * before or after it: the reference is replaced and the text on both sides
   * is copied.
   */
  lemma RewriteOne(s: string, j: nat, e: nat, r: Ref, files: string -> Option<seq<Byte>>, md5Hex: seq<Byte> -> string)
    requires IsDigest(md5Hex) && HasAt(s, j, Source(r)) && IsAsset(r.value) && e == j + Span(r)
    requires OpenerFree(s, 0, j) && OpenerFree(s, e, |s|)
    ensures ApplyCacheBusting(s, files, md5Hex) == s[..j] + Replacement(r, files, md5Hex) + s[e..]
  {
    var sub := r => Replacement(r, files, md5Hex);
    SubstituteOne(s, j, e, r, sub);
  }

  /** The same for any replacement function. */
  lemma SubstituteOne(s: string, j: nat, e: nat, r: Ref, sub: Ref -> string)
    requires HasAt(s, j, Source(r)) && IsAsset(r.value) && e == j + Span(r)
    requires OpenerFree(s, 0, j) && OpenerFree(s, e, |s|)
    ensures RewriteFrom(s, 0, sub) == s[..j] + sub(r) + s[e..]
  {
    CopyPlain(s, 0, j, sub);
    assert s[0..j] == s[..j];
    RewriteAtMatch(s, j, e, r, sub);
    CopyTail(s, e, sub);
    ConcatAssoc(s[..j], sub(r), s[e..]);
  }

  /**
   * The replacement keeps the attribute name, points below `/static/`, drops
   * exactly the first eight characters of the value (whether or not they were
   * `/static/`) and carries a hash of 0 or 8 characters, "" for a missing file.
   */
  lemma ReplacementShape(r: Ref, files: string -> Option<seq<Byte>>, md5Hex: seq<Byte> -> string)
    requires IsDigest(md5Hex)
    ensures var path := StripPrefix(r.value);
      var h := HashFile(files(path), md5Hex);
      && Replacement(r, files, md5Hex) == AttrName(r.attr) + "=\"/static/" + path + "?v=" + h + "\""
      && (|r.value| >= 8 ==> r.value == r.value[..8] + path)
      && (|r.value| < 8 ==> path == "")
      && (|h| == 0 || |h| == 8)
      && (h == "" <==> files(path).None?)
  {
    var path := StripPrefix(r.value);
    JoinSix(AttrName(r.attr), "=\"/static/", path, "?v=", HashFile(files(path), md5Hex), "\"");
  }

  /** A value with any other extension is not a match, so the attribute is left as it is. */
  lemma OtherExtensionKept(s: string, i: nat, r: Ref)
    requires i <= |s| && HasAt(s, i, Source(r))
    requires NoQuote(r.value) && !CssName(r.value) && !JsName(r.value)
    ensures RefAt(s, i).None?
  {
    var j := i + |AttrName(r.attr)| + 2;
    SourceParts(s, i, r);
    OpenerOf(s, i, r.attr);
    ValueAt(s, j, r.value);
    assert s[j..NextQuote(s, j)] == r.value;
    assert !IsAsset(r.value);
  }

  /** The page's png reference is not a stylesheet or script. */
  lemma PngNotAsset()
    ensures !IsAsset("/static/logo.png")
  {
  }
}
