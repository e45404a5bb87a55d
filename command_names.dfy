/**
 * The names the command-name completer offers: the command as given and
 * its short form, the second piece of command.split(":")
 * (ArgumentCompleter.getNames).
 */
module CommandNames {
  import opened Wrappers

  /** Every piece between colons, empty pieces included: a ':' starts a
      new piece, any other character extends the first one. */
  function Segments(s: string): (r: seq<string>)
    ensures |r| >= 1
    decreases |s|
  {
    if |s| == 0 then [""]
    else
      var r := Segments(s[1..]);
      if s[0] == ':' then [""] + r else [[s[0]] + r[0]] + r[1..]
  }

  /** The pieces glued back together with ':' between them. */
  function Join(parts: seq<string>): string
    requires |parts| >= 1
  {
    if |parts| == 1 then parts[0] else parts[0] + ":" + Join(parts[1..])
  }

  /** Drops the empty pieces at the end, as String.split with limit 0 does. */
  function StripTrailingEmpty(parts: seq<string>): (r: seq<string>)
    ensures |r| <= |parts| && r == parts[..|r|]
    ensures |r| == 0 || r[|r| - 1] != ""
    ensures forall i :: |r| <= i < |parts| ==> parts[i] == ""
  {
    if |parts| == 0 then parts
    else if parts[|parts| - 1] == "" then StripTrailingEmpty(parts[..|parts| - 1])
    else parts
  }

  /** Java's command.split(":"): when nothing matches the whole string is
      the only piece; otherwise trailing empty pieces are removed. */
  function JavaSplit(s: string): seq<string>
  {
    if ':' !in s then [s] else StripTrailingEmpty(Segments(s))
  }

  /** getNames: the command and the second piece of its split, or None
      where s[1] throws ArrayIndexOutOfBoundsException. */
  function GetNames(command: string): Option<seq<string>>
  {
    var s := JavaSplit(command);
    if |s| >= 2 then Some([command, s[1]]) else None
  }

  predicate HasNonColon(t: string) {
    exists i :: 0 <= i < |t| && t[i] != ':'
  }

  /** Some piece at index from or later is non-empty. */
  predicate SomeNonEmpty(parts: seq<string>, from: int) {
    exists j :: from <= j < |parts| && 0 <= j && parts[j] != ""
  }

  /** Splitting loses nothing: the pieces hold no colon and join back to
      the original string. */
  lemma {:induction false} JoinSegments(s: string)
    ensures Join(Segments(s)) == s
    ensures forall j :: 0 <= j < |Segments(s)| ==> ':' !in Segments(s)[j]
    decreases |s|
  {
    if |s| > 0 {
      var r := Segments(s[1..]);
      JoinSegments(s[1..]);
      if s[0] == ':' {
        assert ([""] + r)[1..] == r;
        assert s == [s[0]] + s[1..];
      } else {
        var r' := [[s[0]] + r[0]] + r[1..];
        assert r'[1..] == r[1..];
        if |r| == 1 {
          assert s == [s[0]] + r[0];
        } else {
          assert Join(r) == r[0] + ":" + Join(r[1..]);
          assert s == [s[0]] + s[1..];
        }
        forall j | 0 <= j < |r'|
          ensures ':' !in r'[j]
        {
          if j == 0 {
            assert r'[0] == [s[0]] + r[0];
          } else {
            assert r'[j] == r[j];
          }
        }
      }
    }
  }

  /** A piece without a colon is a single segment. */
  lemma {:induction false} SegmentsNoColon(a: string)
    requires ':' !in a
    ensures Segments(a) == [a]
    decreases |a|
  {
    if |a| > 0 {
      assert ':' !in a[1..] by {
        forall k | 0 <= k < |a[1..]|
          ensures a[1..][k] != ':'
        {
          assert a[1..][k] == a[k + 1];
        }
      }
      SegmentsNoColon(a[1..]);
      assert a[0] != ':';
      assert [a[0]] + a[1..] == a;
    }
  }

  lemma {:induction false} SegmentsAfterColon(a: string, rest: string)
    requires ':' !in a
    ensures Segments(a + ":" + rest) == [a] + Segments(rest)
    decreases |a|
  {
    var s := a + ":" + rest;
    if |a| == 0 {
      assert s[0] == ':' && s[1..] == rest;
    } else {
      assert ':' !in a[1..] by {
        forall k | 0 <= k < |a[1..]|
          ensures a[1..][k] != ':'
        {
          assert a[1..][k] == a[k + 1];
        }
      }
      assert s[1..] == a[1..] + ":" + rest;
      SegmentsAfterColon(a[1..], rest);
      assert s[0] == a[0] && a[0] != ':';
      assert [a[0]] + a[1..] == a;
    }
  }

  /** Some piece is non-empty exactly when the string has a character other
      than ':'. */
  lemma {:induction false} NonEmptySegment(t: string)
    ensures SomeNonEmpty(Segments(t), 0) <==> HasNonColon(t)
    decreases |t|
  {
    if |t| > 0 {
      var r := Segments(t[1..]);
      NonEmptySegment(t[1..]);
      if t[0] == ':' {
        var r' := [""] + r;
        assert Segments(t) == r';
        if HasNonColon(t) {
          var k :| 0 <= k < |t| && t[k] != ':';
          assert t[1..][k - 1] == t[k];
          var j :| 0 <= j < |r| && r[j] != "";
          assert r'[j + 1] == r[j];
        }
        if SomeNonEmpty(r', 0) {
          var j :| 0 <= j < |r'| && r'[j] != "";
          assert r[j - 1] != "";
          var k :| 0 <= k < |t[1..]| && t[1..][k] != ':';
          assert t[k + 1] == t[1..][k];
        }
      } else {
        assert Segments(t)[0] != "";
      }
    }
  }

  lemma {:induction false} StripKeepsSecond(parts: seq<string>)
    requires |parts| >= 2
    ensures |StripTrailingEmpty(parts)| >= 2 <==> SomeNonEmpty(parts, 1)
    ensures |StripTrailingEmpty(parts)| >= 2 ==> StripTrailingEmpty(parts)[1] == parts[1]
    decreases |parts|
  {
    var last := |parts| - 1;
    if parts[last] == "" {
      if |parts| > 2 {
        StripKeepsSecond(parts[..last]);
        if SomeNonEmpty(parts, 1) {
          var j :| 1 <= j < |parts| && parts[j] != "";
          assert parts[..last][j] != "";
        }
        if SomeNonEmpty(parts[..last], 1) {
          var j :| 1 <= j < last && parts[..last][j] != "";
          assert parts[j] != "";
        }
      }
    } else {
      assert parts[last] != "";
    }
  }

  /** The pieces of b + tail, where b holds no colon and tail is empty or
      starts with one. */
  lemma SegmentsOfPiece(b: string, tail: string)
    requires ':' !in b && (tail == "" || tail[0] == ':')
    ensures Segments(b + tail) == [b] + (if tail == "" then [] else Segments(tail[1..]))
  {
    if tail == "" {
      assert b + tail == b;
      SegmentsNoColon(b);
    } else {
      assert b + tail == b + ":" + tail[1..];
      SegmentsAfterColon(b, tail[1..]);
    }
  }

  lemma TailHasNonColon(tail: string)
    requires tail != "" && tail[0] == ':'
    ensures HasNonColon(tail) <==> HasNonColon(tail[1..])
  {
    if HasNonColon(tail) {
      var k :| 0 <= k < |tail| && tail[k] != ':';
      assert tail[1..][k - 1] == tail[k];
    }
    if HasNonColon(tail[1..]) {
      var k :| 0 <= k < |tail[1..]| && tail[1..][k] != ':';
      assert tail[k + 1] != ':';
    }
  }

  lemma RestHasNonColon(tail: string)
    requires tail == "" || tail[0] == ':'
    ensures SomeNonEmpty(if tail == "" then [] else Segments(tail[1..]), 0) <==> HasNonColon(tail)
  {
    if tail != "" {
      NonEmptySegment(tail[1..]);
      TailHasNonColon(tail);
    }
  }

  lemma NonEmptyAfterFirst(a: string, b: string, rest: seq<string>)
    ensures SomeNonEmpty([a, b] + rest, 1) <==> (b != "" || SomeNonEmpty(rest, 0))
  {
    var parts := [a, b] + rest;
    assert parts[1] == b;
    if SomeNonEmpty(parts, 1) {
      var j :| 1 <= j < |parts| && parts[j] != "";
      assert j > 1 ==> rest[j - 2] != "";
    }
    if SomeNonEmpty(rest, 0) {
      var j :| 0 <= j < |rest| && rest[j] != "";
      assert parts[j + 2] == rest[j];
    }
  }

  lemma SegmentsOfShortForm(command: string, a: string, b: string, tail: string)
    requires command == a + ":" + (b + tail)
    requires ':' !in a && ':' !in b && (tail == "" || tail[0] == ':')
    ensures Segments(command) == [a, b] + (if tail == "" then [] else Segments(tail[1..]))
  {
    var rest: seq<string> := if tail == "" then [] else Segments(tail[1..]);
    SegmentsAfterColon(a, b + tail);
    SegmentsOfPiece(b, tail);
    assert [a] + ([b] + rest) == [a, b] + rest;
  }

  /** A command with a colon splits into its pieces minus the trailing
      empty ones. */
  lemma SplitAtColon(command: string, a: string, rest: string)
    requires command == a + ":" + rest
    ensures JavaSplit(command) == StripTrailingEmpty(Segments(command))
  {
    assert command[|a|] == ':';
  }

  /** getNames succeeds exactly when some piece after the first colon is
      non-empty, and the short name is the text between the first colon
      and the next one (or the end). */
  lemma GetNamesShortForm(command: string, a: string, b: string, tail: string)
    requires command == a + ":" + (b + tail)
    requires ':' !in a && ':' !in b && (tail == "" || tail[0] == ':')
    ensures GetNames(command).Some? <==> (b != "" || HasNonColon(tail))
    ensures GetNames(command).Some? ==> GetNames(command).value == [command, b]
  {
    SegmentsOfShortForm(command, a, b, tail);
    SplitAtColon(command, a, b + tail);
    var rest: seq<string> := if tail == "" then [] else Segments(tail[1..]);
    RestHasNonColon(tail);
    NonEmptyAfterFirst(a, b, rest);
    StripKeepsSecond(Segments(command));
  }

  /** Without a colon the split has one piece and getNames throws. */
  lemma GetNamesNeedsColon(command: string)
    requires ':' !in command
    ensures GetNames(command) == None
  {
  }
}
