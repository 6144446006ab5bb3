/** The pure tail of `ReadPoem`: choosing the artifact's file name and turning
    its content into lines. */
module Poem {

  const FileKey: string := "file"
  const DefaultFile: string := "Poem"

  /** The artifact's file name: the `file` build option when it is non-empty,
      otherwise "Poem". A missing key reads as "", as a Go map lookup does. */
  function FileName(opts: map<string, string>): (f: string)
    ensures f != ""
    ensures FileKey in opts && opts[FileKey] != "" ==> f == opts[FileKey]
    ensures FileKey !in opts || opts[FileKey] == "" ==> f == DefaultFile
  {
    var given := if FileKey in opts then opts[FileKey] else "";
    if given == "" then DefaultFile else given
  }

  /** Number of occurrences of `c` in `s`. */
  function Count(s: string, c: char): nat
  {
    if s == [] then 0 else (if s[0] == c then 1 else 0) + Count(s[1..], c)
  }

  /** `strings.Split(s, string(sep))`: the maximal pieces of `s` between
      separators. For a one-character separator it never returns an empty list:
      the empty string splits into one empty piece. */
  function Split(s: string, sep: char): (parts: seq<string>)
    ensures |parts| >= 1
    decreases |s|
  {
    if s == [] then [""]
    else
      var rest := Split(s[1..], sep);
      if s[0] == sep then [""] + rest
      else [[s[0]] + rest[0]] + rest[1..]
  }

  /** `strings.Join(parts, string(sep))`, the inverse of `Split`. */
  function Join(parts: seq<string>, sep: char): string
  {
    if |parts| == 0 then ""
    else if |parts| == 1 then parts[0]
    else parts[0] + [sep] + Join(parts[1..], sep)
  }

  /** Splitting on `sep` gives one piece more than there are separators. */
  lemma {:induction false} SplitCount(s: string, sep: char)
    ensures |Split(s, sep)| == Count(s, sep) + 1
  {
    if s != [] {
      SplitCount(s[1..], sep);
    }
  }

  /** No piece contains the separator. */
  lemma {:induction false} SplitPiecesFree(s: string, sep: char)
    ensures forall p | p in Split(s, sep) :: sep !in p
  {
    if s != [] {
      SplitPiecesFree(s[1..], sep);
      var rest := Split(s[1..], sep);
      assert sep !in rest[0];
      forall p | p in rest[1..] ensures sep !in p {
        assert p in rest;
      }
    }
  }

  /** Joining the pieces back gives the original string. */
  lemma {:induction false} JoinSplit(s: string, sep: char)
    ensures Join(Split(s, sep), sep) == s
  {
    if s != [] {
      JoinSplit(s[1..], sep);
      var rest := Split(s[1..], sep);
      if s[0] == sep {
        assert ([""] + rest)[1..] == rest;
      } else {
        var parts := [[s[0]] + rest[0]] + rest[1..];
        assert parts[1..] == rest[1..];
        if |rest| == 1 {
          assert s == [s[0]] + s[1..];
        } else {
          assert Join(rest, sep) == rest[0] + [sep] + Join(rest[1..], sep);
          assert s == [s[0]] + s[1..];
        }
      }
    }
  }

  /** A string without the separator is one piece. */
  lemma {:induction false} SplitFree(p: string, sep: char)
    requires sep !in p
    ensures Split(p, sep) == [p]
  {
    if p != [] {
      assert sep !in p[1..] by {
        forall k | 0 <= k < |p[1..]| ensures p[1..][k] != sep {
          assert p[1..][k] == p[k + 1];
        }
      }
      SplitFree(p[1..], sep);
      assert [p[0]] + p[1..] == p;
    }
  }

  /** A separator-free prefix followed by a separator is the first piece. */
  lemma {:induction false} SplitCons(p: string, t: string, sep: char)
    requires sep !in p
    ensures Split(p + [sep] + t, sep) == [p] + Split(t, sep)
  {
    if p == [] {
      assert p + [sep] + t == [sep] + t;
      assert ([sep] + t)[1..] == t;
    } else {
      assert (p + [sep] + t)[1..] == p[1..] + [sep] + t;
      SplitCons(p[1..], t, sep);
      assert [p[0]] + p[1..] == p;
    }
  }

  /** Splitting a join of separator-free pieces gives the pieces back. */
  lemma {:induction false} SplitJoin(parts: seq<string>, sep: char)
    requires |parts| >= 1
    requires forall p | p in parts :: sep !in p
    ensures Split(Join(parts, sep), sep) == parts
  {
    if |parts| == 1 {
      SplitFree(parts[0], sep);
    } else {
      assert parts[0] in parts;
      forall p | p in parts[1..] ensures sep !in p {
        assert p in parts;
      }
      SplitJoin(parts[1..], sep);
      SplitCons(parts[0], Join(parts[1..], sep), sep);
    }
  }

  /** Joining one more piece appends the separator and that piece. */
  lemma {:induction false} JoinSnoc(parts: seq<string>, q: string, sep: char)
    requires |parts| >= 1
    ensures Join(parts + [q], sep) == Join(parts, sep) + [sep] + q
  {
    if |parts| > 1 {
      assert (parts + [q])[1..] == parts[1..] + [q];
      JoinSnoc(parts[1..], q, sep);
    }
  }

  /** A trailing separator adds one empty last piece. */
  lemma SplitTrailing(s: string, sep: char)
    ensures Split(s + [sep], sep) == Split(s, sep) + [""]
  {
    var parts := Split(s, sep);
    JoinSplit(s, sep);
    JoinSnoc(parts, "", sep);
    SplitPiecesFree(s, sep);
    forall p | p in parts + [""] ensures sep !in p {
      if p != "" { assert p in parts; }
    }
    assert s + [sep] + "" == s + [sep];
    SplitJoin(parts + [""], sep);
  }

  /** The lines `ReadPoem` returns for file content `content`: the content
      split on newlines with the first piece, the header, dropped. There is one
      line per newline in the content, and none of them contains a newline. */
  function PoemLines(content: string): (lines: seq<string>)
    ensures |lines| == Count(content, '\n')
    ensures forall l | l in lines :: '\n' !in l
  {
    SplitCount(content, '\n');
    SplitPiecesFree(content, '\n');
    var parts := Split(content, '\n');
    assert forall l | l in parts[1..] :: l in parts;
    parts[1..]
  }

  /** The lines are exactly the pieces after the first newline: the header is
      whatever precedes it. */
  lemma HeaderDropped(header: string, body: string)
    requires '\n' !in header
    ensures PoemLines(header + "\n" + body) == Split(body, '\n')
  {
    SplitCons(header, body, '\n');
  }

  /** Empty content, or a header with no newline after it, gives no lines; a
      header followed by a single newline gives one empty line. */
  lemma HeaderOnly(header: string)
    requires '\n' !in header
    ensures PoemLines(header) == []
    ensures PoemLines(header + "\n") == [""]
  {
    SplitFree(header, '\n');
    HeaderDropped(header, "");
    assert header + "\n" + "" == header + "\n";
  }

  /** A trailing newline yields a trailing empty line. */
  lemma TrailingNewline(content: string)
    ensures PoemLines(content + "\n") == PoemLines(content) + [""]
  {
    SplitTrailing(content, '\n');
  }

  /** A header line followed by newline-free lines reads back as those lines. */
  lemma PoemRoundTrip(header: string, lines: seq<string>)
    requires '\n' !in header
    requires forall l | l in lines :: '\n' !in l
    ensures PoemLines(Join([header] + lines, '\n')) == lines
  {
    var parts := [header] + lines;
    forall p | p in parts ensures '\n' !in p {
      if p != header { assert p in lines; }
    }
    SplitJoin(parts, '\n');
    assert parts[1..] == lines;
  }
}
