/** The few Python `str` operations the preprocessors rely on, stated on
    `seq<char>`: substring search (`in`, `find`, `rfind`), `split("\n")` and
    `"\n".join`, `replace(pat, "")`, and POSIX `os.path.splitext`. */
module PyStrings {

  /** `sub` occurs in `s` starting at index `i`. */
  predicate OccursAt(s: string, sub: string, i: nat) {
    i + |sub| <= |s| && s[i..i + |sub|] == sub
  }

  /** Python's `s.find(sub, i)`: the first index at or after `i` where `sub`
      occurs, or -1. */
  function FindFrom(s: string, sub: string, i: nat): (r: int)
    requires i <= |s|
    ensures r == -1 || (i <= r <= |s| && OccursAt(s, sub, r))
    ensures r == -1 ==> forall j :: i <= j <= |s| ==> !OccursAt(s, sub, j)
    ensures r != -1 ==> forall j :: i <= j < r ==> !OccursAt(s, sub, j)
    decreases |s| - i
  {
    if OccursAt(s, sub, i) then i
    else if i == |s| then -1
    else FindFrom(s, sub, i + 1)
  }

  /** Python's `s.find(sub)`. */
  function Find(s: string, sub: string): (r: int)
    ensures r == -1 <==> forall j :: 0 <= j <= |s| ==> !OccursAt(s, sub, j)
    ensures r != -1 ==> 0 <= r <= |s| - |sub| && OccursAt(s, sub, r)
    ensures r != -1 ==> forall j :: 0 <= j < r ==> !OccursAt(s, sub, j)
  {
    FindFrom(s, sub, 0)
  }

  /** Python's `sub in s`. */
  predicate Contains(s: string, sub: string) {
    Find(s, sub) != -1
  }

  /** A text lacking one of the pattern's characters does not contain it. */
  lemma AbsentCharNotContained(s: string, sub: string, c: char)
    requires c in sub && c !in s
    ensures !Contains(s, sub)
  {
    var k :| 0 <= k < |sub| && sub[k] == c;
    forall j | 0 <= j <= |s| ensures !OccursAt(s, sub, j) {
      if j + |sub| <= |s| {
        assert s[j..j + |sub|][k] != sub[k];
      }
    }
  }

  /** Python's `s.rfind(c)` for a single character: the last index holding `c`, or -1. */
  function RFindChar(s: string, c: char): (r: int)
    ensures -1 <= r < |s|
    ensures r >= 0 ==> s[r] == c
    ensures forall j :: r < j < |s| ==> s[j] != c
  {
    if s == [] then -1
    else if s[|s| - 1] == c then |s| - 1
    else RFindChar(s[..|s| - 1], c)
  }

  /** Python's `s.split("\n")`: never empty, and no piece holds a newline. */
  function Split(s: string): (r: seq<string>)
    ensures |r| >= 1
    ensures forall k :: 0 <= k < |r| ==> '\n' !in r[k]
  {
    if s == [] then [""]
    else if s[0] == '\n' then [""] + Split(s[1..])
    else
      var rest := Split(s[1..]);
      [[s[0]] + rest[0]] + rest[1..]
  }

  /** Python's `"\n".join(lines)`. */
  function Join(lines: seq<string>): string {
    if lines == [] then ""
    else if |lines| == 1 then lines[0]
    else lines[0] + "\n" + Join(lines[1..])
  }

  /** Joining the pieces of a split gives the original text back. */
  lemma {:induction false} JoinSplit(s: string)
    ensures Join(Split(s)) == s
  {
    if s == [] {
    } else if s[0] == '\n' {
      JoinSplit(s[1..]);
      assert Split(s) == [""] + Split(s[1..]);
      assert Split(s)[1..] == Split(s[1..]);
    } else {
      var rest := Split(s[1..]);
      JoinSplit(s[1..]);
      var r := [[s[0]] + rest[0]] + rest[1..];
      assert Split(s) == r;
      if |rest| == 1 {
        assert Join(r) == [s[0]] + rest[0];
        assert Join(rest) == rest[0];
      } else {
        assert r[1..] == rest[1..];
        assert Join(r) == [s[0]] + rest[0] + "\n" + Join(rest[1..]);
        assert Join(rest) == rest[0] + "\n" + Join(rest[1..]);
      }
      assert s == [s[0]] + s[1..];
    }
  }

  /** A line without newlines, then a newline, then any text, splits into that
      line followed by the pieces of the text. */
  lemma {:induction false} SplitLineThen(line: string, s: string)
    requires '\n' !in line
    ensures Split(line + "\n" + s) == [line] + Split(s)
  {
    if line == [] {
      assert line + "\n" + s == ['\n'] + s;
      assert (['\n'] + s)[1..] == s;
    } else {
      var t := line + "\n" + s;
      assert t[0] == line[0] && t[0] != '\n';
      assert t[1..] == line[1..] + "\n" + s;
      SplitLineThen(line[1..], s);
      assert [line[0]] + line[1..] == line;
    }
  }

  /** Splitting the join of newline-free lines gives the lines back. */
  lemma {:induction false} SplitJoin(lines: seq<string>)
    requires |lines| >= 1
    requires forall k :: 0 <= k < |lines| ==> '\n' !in lines[k]
    ensures Split(Join(lines)) == lines
  {
    if |lines| == 1 {
      SplitNoNewline(lines[0]);
    } else {
      SplitJoin(lines[1..]);
      SplitLineThen(lines[0], Join(lines[1..]));
    }
  }

  /** A text without newlines splits into itself. */
  lemma {:induction false} SplitNoNewline(s: string)
    requires '\n' !in s
    ensures Split(s) == [s]
  {
    if s != [] {
      assert s[0] in s;
      assert forall c :: c in s[1..] ==> c in s;
      SplitNoNewline(s[1..]);
      assert [s[0]] + s[1..] == s;
    }
  }

  /** Python's `s.replace(pat, "")`: occurrences of `pat` are removed left to
      right, without overlap; an empty `pat` leaves `s` unchanged. */
  function RemoveAll(s: string, pat: string): (r: string)
    ensures |r| <= |s|
    ensures pat == [] ==> r == s
    decreases |s|
  {
    if pat == [] || |s| < |pat| then s
    else if s[..|pat|] == pat then RemoveAll(s[|pat|..], pat)
    else [s[0]] + RemoveAll(s[1..], pat)
  }

  /** Removing a pattern that does not occur leaves the text unchanged, and
      removing one that occurs shortens it. */
  lemma {:induction false} RemoveAllShortens(s: string, pat: string)
    requires pat != []
    ensures RemoveAll(s, pat) == s <==> !Contains(s, pat)
    decreases |s|
  {
    if |s| < |pat| {
      assert forall j :: 0 <= j <= |s| ==> !OccursAt(s, pat, j);
    } else if s[..|pat|] == pat {
      assert OccursAt(s, pat, 0);
      assert |RemoveAll(s[|pat|..], pat)| <= |s| - |pat| < |s|;
    } else {
      ContainsTail(s, pat);
      RemoveAllShortens(s[1..], pat);
      var rest := RemoveAll(s[1..], pat);
      assert RemoveAll(s, pat) == [s[0]] + rest;
      assert rest == s[1..] ==> [s[0]] + rest == s;
      assert [s[0]] + rest == s ==> rest == ([s[0]] + rest)[1..] == s[1..];
    }
  }

  /** Without an occurrence at the front, the pattern occurs in the text
      exactly when it occurs in the text's tail. */
  lemma ContainsTail(s: string, pat: string)
    requires pat != [] && |pat| <= |s| && s[..|pat|] != pat
    ensures Contains(s, pat) <==> Contains(s[1..], pat)
  {
    forall j | 0 <= j <= |s| - 1
      ensures OccursAt(s[1..], pat, j) <==> OccursAt(s, pat, j + 1)
    {
      if j + |pat| <= |s| - 1 {
        assert s[1..][j..j + |pat|] == s[j + 1..j + 1 + |pat|];
      }
    }
    if Contains(s, pat) {
      var k := Find(s, pat);
      assert k >= 1;
      assert OccursAt(s[1..], pat, k - 1);
    }
    if Contains(s[1..], pat) {
      var k := Find(s[1..], pat);
      assert OccursAt(s, pat, k + 1);
    }
  }

  /** Python's `posixpath.splitext(p)`: the extension starts at the last dot
      after the last slash, unless everything between that slash and that
      dot is a dot (a leading-dot name has no extension). */
  function SplitExt(p: string): (r: (string, string))
    ensures r.0 + r.1 == p
    ensures r.1 == [] || (r.1[0] == '.' && '.' !in r.1[1..] && '/' !in r.1)
  {
    var sepIndex := RFindChar(p, '/');
    var dotIndex := RFindChar(p, '.');
    if dotIndex > sepIndex && exists k :: sepIndex + 1 <= k < dotIndex && p[k] != '.' then
      assert forall j :: dotIndex < j < |p| ==> p[j] != '.' && p[j] != '/';
      (p[..dotIndex], p[dotIndex..])
    else
      (p, "")
  }
}
