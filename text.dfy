/**
 * The JavaScript string built-ins the header code relies on, on `seq<char>`:
 * `split` on one character, `split` on a separator with the spaces around it, `toLowerCase` and
 * `replace(/"/g, '')`.
 */
module Text {
  import Lists

  /** `s.split(sep)` for a one-character separator: the text between separators, in order. */
  function Split(s: string, sep: char): (pieces: seq<string>)
    ensures |pieces| >= 1
    decreases |s|
  {
    if s == [] then [""]
    else
      var rest := Split(s[1..], sep);
      if s[0] == sep then [""] + rest
      else [[s[0]] + rest[0]] + rest[1..]
  }

  /** No piece holds the separator, and every character of a piece comes from `s`. */
  lemma {:induction false} SplitShape(s: string, sep: char)
    ensures forall i :: 0 <= i < |Split(s, sep)| ==> sep !in Split(s, sep)[i]
    ensures forall i, c :: 0 <= i < |Split(s, sep)| && c in Split(s, sep)[i] ==> c in s
    decreases |s|
  {
    if s != [] {
      SplitShape(s[1..], sep);
      var rest := Split(s[1..], sep);
      assert forall c :: c in s[1..] ==> c in s;
      if s[0] != sep {
        var first := [s[0]] + rest[0];
        assert forall c :: c in first ==> c == s[0] || c in rest[0];
        assert Split(s, sep) == [first] + rest[1..];
      }
    }
  }

  /** `pieces.join(sep)`: the inverse of `Split`. */
  function Join(pieces: seq<string>, sep: char): string
    decreases |pieces|
  {
    if pieces == [] then ""
    else if |pieces| == 1 then pieces[0]
    else pieces[0] + [sep] + Join(pieces[1..], sep)
  }

  /** Splitting and joining again gives back the original string. */
  lemma {:induction false} JoinSplit(s: string, sep: char)
    ensures Join(Split(s, sep), sep) == s
    decreases |s|
  {
    if s != [] {
      JoinSplit(s[1..], sep);
      var rest := Split(s[1..], sep);
      if s[0] == sep {
        assert ([""] + rest)[1..] == rest;
      } else {
        var pieces := [[s[0]] + rest[0]] + rest[1..];
        if |rest| > 1 {
          assert pieces[1..] == rest[1..];
          assert Join(rest, sep) == rest[0] + [sep] + Join(rest[1..], sep);
        }
      }
      assert s == [s[0]] + s[1..];
    }
  }

  /** A prefix free of the separator is glued onto the first piece of the rest. */
  lemma {:induction false} SplitPrefix(a: string, rest: string, sep: char)
    requires sep !in a
    ensures Split(a + rest, sep) == [a + Split(rest, sep)[0]] + Split(rest, sep)[1..]
    decreases |a|
  {
    if a == [] {
      assert a + rest == rest;
      assert Split(rest, sep) == [Split(rest, sep)[0]] + Split(rest, sep)[1..];
      assert a + Split(rest, sep)[0] == Split(rest, sep)[0];
    } else {
      assert (a + rest)[1..] == a[1..] + rest;
      SplitPrefix(a[1..], rest, sep);
      assert [a[0]] + (a[1..] + Split(rest, sep)[0]) == a + Split(rest, sep)[0];
    }
  }

  /** A string without the separator is a single piece. */
  lemma SplitNone(a: string, sep: char)
    requires sep !in a
    ensures Split(a, sep) == [a]
  {
    SplitPrefix(a, "", sep);
    assert a + "" == a;
  }

  /** A separator-free piece followed by a separator is cut off as the first piece. */
  lemma SplitFirst(a: string, rest: string, sep: char)
    requires sep !in a
    ensures Split(a + [sep] + rest, sep) == [a] + Split(rest, sep)
  {
    SplitPrefix(a, [sep] + rest, sep);
    assert a + [sep] + rest == a + ([sep] + rest);
    assert ([sep] + rest)[1..] == rest;
    assert Split([sep] + rest, sep) == [""] + Split(rest, sep);
    assert a + "" == a;
  }

  /** Joining separator-free pieces and splitting again gives back the pieces. */
  lemma {:induction false} SplitJoin(pieces: seq<string>, sep: char)
    requires |pieces| >= 1
    requires forall i :: 0 <= i < |pieces| ==> sep !in pieces[i]
    ensures Split(Join(pieces, sep), sep) == pieces
    decreases |pieces|
  {
    if |pieces| == 1 {
      SplitNone(pieces[0], sep);
    } else {
      SplitJoin(pieces[1..], sep);
      SplitFirst(pieces[0], Join(pieces[1..], sep), sep);
      assert [pieces[0]] + pieces[1..] == pieces;
    }
  }

  /** `s` without its leading spaces. */
  function TrimStart(s: string): (r: string)
    ensures |r| <= |s| && r == s[|s| - |r|..]
    ensures forall k :: 0 <= k < |s| - |r| ==> s[k] == ' '
    ensures r == [] || r[0] != ' '
    decreases |s|
  {
    if s != [] && s[0] == ' ' then TrimStart(s[1..]) else s
  }

  /** `s` without its trailing spaces. */
  function TrimEnd(s: string): (r: string)
    ensures |r| <= |s| && r == s[..|r|]
    ensures forall k :: |r| <= k < |s| ==> s[k] == ' '
    ensures r == [] || r[|r| - 1] != ' '
    decreases |s|
  {
    if s != [] && s[|s| - 1] == ' ' then TrimEnd(s[..|s| - 1]) else s
  }

  /**
   * Piece `i` of `n` after a split on the pattern "spaces, c, spaces": a separator match swallows the
   * spaces before and after it, so every piece but the first loses its leading
   * spaces and every piece but the last its trailing spaces.
   */
  function TrimPiece(piece: string, i: nat, n: nat): string
  {
    var left := if i > 0 then TrimStart(piece) else piece;
    if i + 1 < n then TrimEnd(left) else left
  }

  /** `s.split` on the regular expression that matches `sep` with any run of spaces on either side. */
  function SplitSpaced(s: string, sep: char): (parts: seq<string>)
    ensures |parts| == |Split(s, sep)|
  {
    var raw := Split(s, sep);
    seq(|raw|, i requires 0 <= i < |raw| => TrimPiece(raw[i], i, |raw|))
  }

  /**
   * The parts of the spaced split hold no separator and only characters of `s`;
   * no part but the first starts with a space and no part but the last ends with one.
   */
  lemma SplitSpacedShape(s: string, sep: char)
    ensures forall i :: 0 <= i < |SplitSpaced(s, sep)| ==> sep !in SplitSpaced(s, sep)[i]
    ensures forall i, c :: 0 <= i < |SplitSpaced(s, sep)| && c in SplitSpaced(s, sep)[i] ==> c in s
    ensures forall i :: 0 < i < |SplitSpaced(s, sep)| && SplitSpaced(s, sep)[i] != [] ==> SplitSpaced(s, sep)[i][0] != ' '
    ensures forall i :: 0 <= i < |SplitSpaced(s, sep)| - 1 && SplitSpaced(s, sep)[i] != [] ==>
      SplitSpaced(s, sep)[i][|SplitSpaced(s, sep)[i]| - 1] != ' '
  {
    var raw := Split(s, sep);
    var parts := SplitSpaced(s, sep);
    SplitShape(s, sep);
    forall i | 0 <= i < |parts|
      ensures forall c :: c in parts[i] ==> c in raw[i]
      ensures i > 0 && parts[i] != [] ==> parts[i][0] != ' '
      ensures i + 1 < |parts| && parts[i] != [] ==> parts[i][|parts[i]| - 1] != ' '
    {
      assert parts[i] == TrimPiece(raw[i], i, |raw|);
      TrimPieceShape(raw[i], i, |raw|);
    }
  }

  /** A trimmed piece is a slice of the piece, trimmed of spaces on the sides it was cut on. */
  lemma TrimPieceShape(piece: string, i: nat, n: nat)
    ensures forall c :: c in TrimPiece(piece, i, n) ==> c in piece
    ensures i > 0 && TrimPiece(piece, i, n) != [] ==> TrimPiece(piece, i, n)[0] != ' '
    ensures i + 1 < n && TrimPiece(piece, i, n) != [] ==> TrimPiece(piece, i, n)[|TrimPiece(piece, i, n)| - 1] != ' '
  {
    if i > 0 {
      var left := TrimStart(piece);
      SliceChars(piece, |piece| - |left|, |piece|);
      if i + 1 < n {
        var r := TrimEnd(left);
        assert TrimPiece(piece, i, n) == r;
        SliceChars(left, 0, |r|);
        if r != [] {
          assert r[0] == left[0];
        }
      } else {
        assert TrimPiece(piece, i, n) == left;
      }
    } else if i + 1 < n {
      var r := TrimEnd(piece);
      assert TrimPiece(piece, i, n) == r;
      SliceChars(piece, 0, |r|);
    } else {
      assert TrimPiece(piece, i, n) == piece;
    }
  }

  /** Nothing but spaces. */
  predicate AllSpaces(s: string)
  {
    forall k :: 0 <= k < |s| ==> s[k] == ' '
  }

  /**
   * `piece` is `part` with spaces around it: none in front unless `front`, none
   * behind unless `back`.
   */
  ghost predicate Padded(piece: string, part: string, front: bool, back: bool)
  {
    exists lead: string, trail: string ::
      && piece == lead + part + trail
      && AllSpaces(lead) && AllSpaces(trail)
      && (!front ==> lead == []) && (!back ==> trail == [])
  }

  /** Spaces around a part, where allowed, make a padded piece. */
  lemma PaddedBy(piece: string, part: string, front: bool, back: bool, lead: string, trail: string)
    requires piece == lead + (part + trail)
    requires AllSpaces(lead) && AllSpaces(trail) && (!front ==> lead == []) && (!back ==> trail == [])
    ensures Padded(piece, part, front, back)
  {
    Lists.ConcatAssoc(lead, part, trail);
  }

  /** Trimming the front takes off spaces only. */
  lemma TrimStartPadded(s: string)
    ensures s == s[..|s| - |TrimStart(s)|] + TrimStart(s)
    ensures AllSpaces(s[..|s| - |TrimStart(s)|])
  {
  }

  /** Trimming the end takes off spaces only. */
  lemma TrimEndPadded(s: string)
    ensures s == TrimEnd(s) + s[|TrimEnd(s)|..]
    ensures AllSpaces(s[|TrimEnd(s)|..])
  {
  }

  /** A trimmed piece is the piece less spaces, and only on the sides it was cut on. */
  lemma TrimPiecePadded(piece: string, i: nat, n: nat)
    ensures Padded(piece, TrimPiece(piece, i, n), i > 0, i + 1 < n)
  {
    var none: string := [];
    assert AllSpaces(none);
    var left := if i > 0 then TrimStart(piece) else piece;
    var lead := if i > 0 then piece[..|piece| - |left|] else none;
    if i > 0 {
      TrimStartPadded(piece);
    } else {
      assert piece == none + piece;
    }
    assert piece == lead + left && AllSpaces(lead);
    var part := TrimPiece(piece, i, n);
    var trail := if i + 1 < n then left[|part|..] else none;
    if i + 1 < n {
      assert part == TrimEnd(left);
      TrimEndPadded(left);
    } else {
      assert part == left;
      assert left == left + none;
    }
    assert left == part + trail && AllSpaces(trail);
    PaddedBy(piece, part, i > 0, i + 1 < n, lead, trail);
  }

  /**
   * The spaced split keeps the text between separators: each piece of the plain
   * split is its part with spaces around it, none before the first part and
   * none after the last. With `JoinSplit`, only the spaces next to a separator are lost.
   */
  lemma SplitSpacedContents(s: string, sep: char)
    ensures forall i :: 0 <= i < |SplitSpaced(s, sep)| ==>
      Padded(Split(s, sep)[i], SplitSpaced(s, sep)[i], i > 0, i + 1 < |SplitSpaced(s, sep)|)
  {
    var raw := Split(s, sep);
    forall i | 0 <= i < |raw|
      ensures Padded(raw[i], SplitSpaced(s, sep)[i], i > 0, i + 1 < |raw|)
    {
      TrimPiecePadded(raw[i], i, |raw|);
    }
  }

  /** Every character of a slice is a character of the string. */
  lemma SliceChars(s: string, lo: nat, hi: nat)
    requires lo <= hi <= |s|
    ensures forall c :: c in s[lo..hi] ==> c in s
  {
    forall c | c in s[lo..hi] ensures c in s {
      var k :| 0 <= k < hi - lo && s[lo..hi][k] == c;
      assert s[lo + k] == c;
    }
  }

  /** Without spaces, the spaced split is the plain split. */
  lemma SplitSpacedNoSpaces(s: string, sep: char)
    requires ' ' !in s
    ensures SplitSpaced(s, sep) == Split(s, sep)
  {
    var raw := Split(s, sep);
    SplitShape(s, sep);
    forall i | 0 <= i < |raw| ensures TrimPiece(raw[i], i, |raw|) == raw[i] {
      assert ' ' !in raw[i];
      if raw[i] != [] {
        assert raw[i][0] in raw[i] && raw[i][|raw[i]| - 1] in raw[i];
      }
    }
  }

  /** A string without the separator is one part, spaces and all. */
  lemma SplitSpacedNone(s: string, sep: char)
    requires sep !in s
    ensures SplitSpaced(s, sep) == [s]
  {
    SplitNone(s, sep);
  }

  /** Trimming a string without spaces changes nothing. */
  lemma TrimNoSpaces(s: string)
    requires ' ' !in s
    ensures TrimStart(s) == s && TrimEnd(s) == s
  {
    if s != [] {
      assert s[0] in s && s[|s| - 1] in s;
    }
  }

  /** A separator followed by a space is swallowed with the space. */
  lemma SplitSpacedPair(a: string, b: string, sep: char)
    requires sep != ' ' && sep !in a && sep !in b && ' ' !in a && ' ' !in b
    ensures SplitSpaced(a + [sep, ' '] + b, sep) == [a, b]
  {
    var s := a + [sep, ' '] + b;
    assert s == a + [sep] + ([' '] + b);
    SplitFirst(a, [' '] + b, sep);
    SplitNone([' '] + b, sep);
    var raw := Split(s, sep);
    assert raw == [a, [' '] + b];
    TrimNoSpaces(a);
    TrimNoSpaces(b);
    assert ([' '] + b)[1..] == b;
    assert TrimPiece(raw[0], 0, 2) == a;
    assert TrimPiece(raw[1], 1, 2) == b;
    var parts := SplitSpaced(s, sep);
    assert |parts| == 2 && parts[0] == a && parts[1] == b;
  }

  /** ASCII upper-case letters become lower-case; every other character is kept. */
  function LowerChar(c: char): char
  {
    if 'A' <= c <= 'Z' then (c as int + 32) as char else c
  }

  predicate IsUpper(c: char) { 'A' <= c <= 'Z' }

  /** `s.toLowerCase()` on the ASCII range. */
  function ToLower(s: string): (r: string)
    ensures |r| == |s|
    ensures forall i :: 0 <= i < |r| ==> !IsUpper(r[i])
    ensures forall i :: 0 <= i < |r| && !IsUpper(s[i]) ==> r[i] == s[i]
    ensures forall i :: 0 <= i < |r| && IsUpper(s[i]) ==> r[i] as int == s[i] as int + 32
  {
    seq(|s|, i requires 0 <= i < |s| => LowerChar(s[i]))
  }

  /** Two characters that are equal, or an ASCII capital and its own small letter. */
  predicate SameIgnoringCase(x: char, y: char)
  {
    || x == y
    || (IsUpper(x) && y as int == x as int + 32)
    || (IsUpper(y) && x as int == y as int + 32)
  }

  /** Two characters lower-case alike exactly when they agree up to ASCII case. */
  lemma LowerCharAlike(x: char, y: char)
    ensures LowerChar(x) == LowerChar(y) <==> SameIgnoringCase(x, y)
  {
  }

  /**
   * Two strings lower-case alike exactly when they agree character by
   * character up to ASCII case: `For`, `FOR` and `for` are one name.
   */
  lemma ToLowerAlike(a: string, b: string)
    ensures ToLower(a) == ToLower(b) <==> |a| == |b| && forall i :: 0 <= i < |a| ==> SameIgnoringCase(a[i], b[i])
  {
    if |a| == |b| {
      forall i | 0 <= i < |a| ensures ToLower(a)[i] == ToLower(b)[i] <==> SameIgnoringCase(a[i], b[i]) {
        LowerCharAlike(a[i], b[i]);
      }
      if ToLower(a) != ToLower(b) {
        var k :| 0 <= k < |a| && ToLower(a)[k] != ToLower(b)[k];
        assert !SameIgnoringCase(a[k], b[k]);
      }
    }
  }

  /** Lower-casing twice is lower-casing once. */
  lemma ToLowerIdempotent(s: string)
    ensures ToLower(ToLower(s)) == ToLower(s)
  {
  }

  /** `s.replace(/"/g, '')`: every double quote removed, wherever it stands. */
  function StripQuotes(s: string): (r: string)
    ensures '"' !in r
    ensures forall c :: c in r <==> c in s && c != '"'
    ensures |r| <= |s|
    decreases |s|
  {
    if s == [] then []
    else (if s[0] == '"' then [] else [s[0]]) + StripQuotes(s[1..])
  }

  /** A value without quotes is left as it is. */
  lemma {:induction false} StripQuotesUnquoted(s: string)
    requires '"' !in s
    ensures StripQuotes(s) == s
    decreases |s|
  {
    if s != [] {
      assert s[0] in s;
      assert '"' !in s[1..] by {
        forall k | 0 <= k < |s[1..]| ensures s[1..][k] != '"' { assert s[1..][k] == s[k + 1]; }
      }
      StripQuotesUnquoted(s[1..]);
      assert s == [s[0]] + s[1..];
    }
  }

  /** Wrapping quotes go, and so do quotes inside the value. */
  lemma StripQuotesWrapped(s: string)
    requires '"' !in s
    ensures StripQuotes(['"'] + s + ['"']) == s
  {
    var q := ['"'] + s + ['"'];
    assert q[1..] == s + ['"'];
    StripQuotesAppendQuote(s);
  }

  lemma {:induction false} StripQuotesAppendQuote(s: string)
    requires '"' !in s
    ensures StripQuotes(s + ['"']) == s
    decreases |s|
  {
    if s == [] {
      assert s + ['"'] == ['"'];
    } else {
      assert s[0] in s;
      assert (s + ['"'])[1..] == s[1..] + ['"'];
      assert '"' !in s[1..] by {
        forall k | 0 <= k < |s[1..]| ensures s[1..][k] != '"' { assert s[1..][k] == s[k + 1]; }
      }
      StripQuotesAppendQuote(s[1..]);
      assert s == [s[0]] + s[1..];
    }
  }

  /** Removing quotes works piece by piece: the other characters keep their order and number. */
  lemma {:induction false} StripQuotesConcat(a: string, b: string)
    ensures StripQuotes(a + b) == StripQuotes(a) + StripQuotes(b)
    decreases |a|
  {
    if a != [] {
      assert (a + b)[0] == a[0];
      assert (a + b)[1..] == a[1..] + b;
      StripQuotesConcat(a[1..], b);
      var head := if a[0] == '"' then [] else [a[0]];
      assert StripQuotes(a + b) == head + StripQuotes(a[1..] + b);
      assert StripQuotes(a) == head + StripQuotes(a[1..]);
    } else {
      assert a + b == b;
    }
  }

  /** A quote anywhere inside a value goes, and the text around it is kept: `a"b` becomes `ab`. */
  lemma StripQuotesInterior(a: string, b: string)
    requires '"' !in a && '"' !in b
    ensures StripQuotes(a + ['"'] + b) == a + b
  {
    StripQuotesConcat(a + ['"'], b);
    StripQuotesAppendQuote(a);
    StripQuotesUnquoted(b);
  }
}
