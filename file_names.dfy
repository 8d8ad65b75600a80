/**
 * How `createNews` names a stored image (controller/news.controller.js, lines
 * 98-99): `generateRandomName() + "." + image.name.split(".")[1]`.
 */
module FileNames {

  /** The separator the handler splits on and joins with. */
  const DOT: char := '.'

  /** What JavaScript yields for `parts[1]` when the name has no dot, once it is concatenated. */
  const UNDEFINED: string := "undefined"

  /**
   * `s.split(sep)` for a one-character separator: the pieces between
   * separators, in order, with an empty piece for each separator at an end or
   * next to another separator.
   */
  function Split(s: string, sep: char): (r: seq<string>)
    ensures |r| >= 1
    ensures forall i :: 0 <= i < |r| ==> sep !in r[i]
    ensures sep !in s ==> r == [s]
    decreases |s|
  {
    if |s| == 0 then [""]
    else if s[0] == sep then [""] + Split(s[1..], sep)
    else
      var rest := Split(s[1..], sep);
      assert [s[0]] + s[1..] == s;
      [[s[0]] + rest[0]] + rest[1..]
  }

  /** `parts.join(sep)`. */
  function Join(parts: seq<string>, sep: char): string
    requires |parts| >= 1
    decreases |parts|
  {
    if |parts| == 1 then parts[0] else parts[0] + [sep] + Join(parts[1..], sep)
  }

  /** Joining the pieces of a split gives back the original text. */
  lemma {:induction false} JoinSplit(s: string, sep: char)
    ensures Join(Split(s, sep), sep) == s
    decreases |s|
  {
    if |s| > 0 {
      var tail := Split(s[1..], sep);
      JoinSplit(s[1..], sep);
      assert s == [s[0]] + s[1..];
      if s[0] == sep {
        assert Split(s, sep) == [""] + tail;
        assert ([""] + tail)[1..] == tail;
      } else {
        assert Split(s, sep) == [[s[0]] + tail[0]] + tail[1..];
        JoinPrepend(s[0], tail, sep);
      }
    }
  }

  /** Prepending a character to the first piece prepends it to the join. */
  lemma JoinPrepend(c: char, parts: seq<string>, sep: char)
    requires |parts| >= 1
    ensures Join([[c] + parts[0]] + parts[1..], sep) == [c] + Join(parts, sep)
  {
    var q := [[c] + parts[0]] + parts[1..];
    assert q[1..] == parts[1..];
  }

  /** Splitting a join of separator-free pieces gives back the pieces. */
  lemma {:induction false} SplitJoin(parts: seq<string>, sep: char)
    requires |parts| >= 1
    requires forall i :: 0 <= i < |parts| ==> sep !in parts[i]
    ensures Split(Join(parts, sep), sep) == parts
    decreases |parts|
  {
    if |parts| > 1 {
      SplitJoin(parts[1..], sep);
      SplitAfterPiece(parts[0], Join(parts[1..], sep), sep);
      assert parts == [parts[0]] + parts[1..];
    }
  }

  /** A separator-free piece followed by a separator splits off as the first piece. */
  lemma {:induction false} SplitAfterPiece(a: string, t: string, sep: char)
    requires sep !in a
    ensures Split(a + [sep] + t, sep) == [a] + Split(t, sep)
    decreases |a|
  {
    var s := a + [sep] + t;
    if |a| == 0 {
      assert s == [sep] + t;
      assert s[1..] == t;
    } else {
      assert s[0] == a[0] && s[1..] == a[1..] + [sep] + t;
      SplitAfterPiece(a[1..], t, sep);
      var rest := Split(s[1..], sep);
      assert rest == [a[1..]] + Split(t, sep);
      assert rest[0] == a[1..] && rest[1..] == Split(t, sep);
      assert Split(s, sep) == [[a[0]] + rest[0]] + rest[1..];
      assert [a[0]] + a[1..] == a;
    }
  }

  /** `name.split(".")[1]` turned into text: the piece after the first dot, or "undefined". */
  function Extension(name: string): (ext: string)
    ensures DOT !in ext
    ensures DOT !in name ==> ext == UNDEFINED
  {
    var parts := Split(name, DOT);
    if |parts| >= 2 then parts[1] else UNDEFINED
  }

  /** The stored file name: the random token, a dot, and the extension. */
  function StoredName(token: string, name: string): (stored: string)
    ensures |stored| > |token|
    ensures stored[..|token|] == token && stored[|token|] == DOT
    ensures stored[|token| + 1..] == Extension(name) && DOT !in stored[|token| + 1..]
  {
    token + [DOT] + Extension(name)
  }

  /**
   * The extension is the text between the first dot of the name and the
   * second dot (or the end of the name).
   */
  lemma ExtensionBetweenDots(stem: string, ext: string, rest: string)
    requires DOT !in stem
    requires DOT !in ext
    requires rest == [] || rest[0] == DOT
    ensures Extension(stem + [DOT] + ext + rest) == ext
  {
    var tail := ext + rest;
    assert stem + [DOT] + ext + rest == stem + [DOT] + tail;
    SplitAfterPiece(stem, tail, DOT);
    SplitHead(ext, rest);
  }

  /** A separator-free piece ending the text or followed by a dot is the first piece. */
  lemma SplitHead(ext: string, rest: string)
    requires DOT !in ext
    requires rest == [] || rest[0] == DOT
    ensures Split(ext + rest, DOT)[0] == ext
  {
    if rest == [] {
      assert ext + rest == ext;
    } else {
      assert ext + rest == ext + [DOT] + rest[1..];
      SplitAfterPiece(ext, rest[1..], DOT);
    }
  }

  /** A name without a dot has the extension "undefined". */
  lemma NoDotExtension(name: string)
    requires DOT !in name
    ensures Extension(name) == UNDEFINED
  {
  }

  /**
   * With a dot-free token, the stored name splits into exactly the token and
   * the original name's extension, so the extension survives storage.
   */
  lemma StoredNameParts(token: string, name: string)
    requires DOT !in token
    ensures Split(StoredName(token, name), DOT) == [token, Extension(name)]
    ensures Extension(StoredName(token, name)) == Extension(name)
  {
    var ext := Extension(name);
    assert DOT !in ext by {
      var parts := Split(name, DOT);
      if |parts| >= 2 {
        assert DOT !in parts[1];
      } else {
        assert ext == UNDEFINED;
      }
    }
    SplitAfterPiece(token, ext, DOT);
  }

  /** The stored name is never empty: it holds at least the dot. */
  lemma StoredNameNonEmpty(token: string, name: string)
    ensures |StoredName(token, name)| > |token|
    ensures StoredName(token, name)[|token|] == DOT
  {
  }
}
