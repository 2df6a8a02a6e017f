/** The few Python string and POSIX path operations the two utilities rely on:
    `str.split`, `str.strip`, `str.lower`, `str.startswith`/`endswith`,
    `os.path.basename`, `os.path.splitext` and `os.path.join` (posixpath). */
module Strings {

  /** `str.isspace` for one character: the characters Python treats as whitespace. */
  predicate IsSpace(c: char)
  {
    var n := c as int;
    n == 0x20 || 0x09 <= n <= 0x0D || 0x1C <= n <= 0x1F || n == 0x85 || n == 0xA0 ||
    n == 0x1680 || 0x2000 <= n <= 0x200A || n == 0x2028 || n == 0x2029 ||
    n == 0x202F || n == 0x205F || n == 0x3000
  }

  predicate IsUpper(c: char)
  {
    'A' <= c <= 'Z'
  }

  /** `str.lower` on one character, for the ASCII letters. */
  function LowerChar(c: char): char
  {
    if IsUpper(c) then (c as int + 32) as char else c
  }

  /** `str.lower`: every character lowered, nothing else changed. */
  function Lower(s: string): (r: string)
    ensures |r| == |s|
    ensures forall i :: 0 <= i < |s| ==> r[i] == LowerChar(s[i])
  {
    if |s| == 0 then [] else [LowerChar(s[0])] + Lower(s[1..])
  }

  lemma LowerHasNoUpper(s: string)
    ensures forall i :: 0 <= i < |s| ==> !IsUpper(Lower(s)[i])
  {
  }

  lemma {:induction false} LowerIdempotent(s: string)
    ensures Lower(Lower(s)) == Lower(s)
  {
    var l := Lower(s);
    assert forall i :: 0 <= i < |l| ==> LowerChar(l[i]) == l[i];
  }

  /** Lowering neither creates nor removes a character that is not a letter. */
  lemma LowerKeepsNonLetter(s: string, c: char)
    requires !IsUpper(c) && !('a' <= c <= 'z')
    ensures c in Lower(s) <==> c in s
  {
    var l := Lower(s);
    if c in s {
      var i :| 0 <= i < |s| && s[i] == c;
      assert l[i] == c;
    }
    if c in l {
      var i :| 0 <= i < |l| && l[i] == c;
      assert s[i] == c;
    }
  }

  predicate StartsWith(s: string, prefix: string)
  {
    |prefix| <= |s| && s[..|prefix|] == prefix
  }

  predicate EndsWith(s: string, suffix: string)
  {
    |suffix| <= |s| && s[|s| - |suffix|..] == suffix
  }

  /** How many whitespace characters `s` starts with: the first character after
      them, if any, is not whitespace (`LeadingSpacesAreSpace` says the rest). */
  function LeadingSpaces(s: string): (k: nat)
    ensures k <= |s|
    ensures k < |s| ==> !IsSpace(s[k])
  {
    if |s| > 0 && IsSpace(s[0]) then 1 + LeadingSpaces(s[1..]) else 0
  }

  lemma {:induction false} LeadingSpacesAreSpace(s: string)
    ensures forall i :: 0 <= i < LeadingSpaces(s) ==> IsSpace(s[i])
  {
    if |s| > 0 && IsSpace(s[0]) {
      LeadingSpacesAreSpace(s[1..]);
      forall i | 1 <= i < LeadingSpaces(s) ensures IsSpace(s[i]) {
        assert s[i] == s[1..][i - 1];
      }
    }
  }

  /** How many whitespace characters `s` ends with: the last character before
      them, if any, is not whitespace (`TrailingSpacesAreSpace` says the rest). */
  function TrailingSpaces(s: string): (k: nat)
    ensures k <= |s|
    ensures k < |s| ==> !IsSpace(s[|s| - k - 1])
  {
    if |s| > 0 && IsSpace(s[|s| - 1]) then 1 + TrailingSpaces(s[..|s| - 1]) else 0
  }

  lemma {:induction false} TrailingSpacesAreSpace(s: string)
    ensures forall i :: |s| - TrailingSpaces(s) <= i < |s| ==> IsSpace(s[i])
  {
    if |s| > 0 && IsSpace(s[|s| - 1]) {
      var u := s[..|s| - 1];
      TrailingSpacesAreSpace(u);
      forall i | |s| - TrailingSpaces(s) <= i < |s| - 1 ensures IsSpace(s[i]) {
        assert s[i] == u[i];
      }
    }
  }

  /** `str.lstrip()`. */
  function TrimStart(s: string): string
  {
    s[LeadingSpaces(s)..]
  }

  /** `str.rstrip()`. */
  function TrimEnd(s: string): string
  {
    s[..|s| - TrailingSpaces(s)]
  }

  /** `str.strip()` with no argument. */
  function Strip(s: string): string
  {
    TrimEnd(TrimStart(s))
  }

  /** What `Strip` promises: it keeps the characters of `s` from the end of the
      leading whitespace on, everything cut away is whitespace, and what is left
      neither starts nor ends with whitespace. */
  lemma StripCharacterised(s: string)
    ensures LeadingSpaces(s) + |Strip(s)| <= |s|
    ensures forall i :: 0 <= i < |Strip(s)| ==> Strip(s)[i] == s[LeadingSpaces(s) + i]
    ensures forall i :: 0 <= i < LeadingSpaces(s) ==> IsSpace(s[i])
    ensures forall i :: LeadingSpaces(s) + |Strip(s)| <= i < |s| ==> IsSpace(s[i])
    ensures Strip(s) == [] || (!IsSpace(Strip(s)[0]) && !IsSpace(Strip(s)[|Strip(s)| - 1]))
  {
    LeadingSpacesAreSpace(s);
    StripCutsTrailingSpace(s);
    StripEndsAreNotSpace(s);
  }

  lemma StripCutsTrailingSpace(s: string)
    ensures forall i :: LeadingSpaces(s) + |Strip(s)| <= i < |s| ==> IsSpace(s[i])
  {
    var k := LeadingSpaces(s);
    var t := s[k..];
    var m := TrailingSpaces(t);
    TrailingSpacesAreSpace(t);
    var r := t[..|t| - m];
    assert |r| == |s| - k - m;
    forall i | k + |r| <= i < |s| ensures IsSpace(s[i]) {
      var j := i - k;
      assert |t| - m <= j < |t|;
      assert s[i] == t[j];
    }
  }

  lemma StripEndsAreNotSpace(s: string)
    ensures Strip(s) == [] || (!IsSpace(Strip(s)[0]) && !IsSpace(Strip(s)[|Strip(s)| - 1]))
  {
    var k := LeadingSpaces(s);
    var t := s[k..];
    var m := TrailingSpaces(t);
    var r := t[..|t| - m];
    if r != [] {
      assert r[0] == s[k];
      assert r[|r| - 1] == t[|t| - m - 1];
    }
  }

  /** A string with no whitespace at either end is left alone by `Strip`. */
  lemma StripOfTrimmed(s: string)
    requires s == [] || (!IsSpace(s[0]) && !IsSpace(s[|s| - 1]))
    ensures Strip(s) == s
  {
    assert LeadingSpaces(s) == 0;
    assert TrimStart(s) == s;
    assert TrailingSpaces(s) == 0;
  }

  /** `sep.join(parts)`. */
  function Join(parts: seq<string>, sep: char): string
  {
    if |parts| == 0 then ""
    else if |parts| == 1 then parts[0]
    else parts[0] + [sep] + Join(parts[1..], sep)
  }

  /** `s.split(sep)` for a one-character separator: at least one part, and no part
      contains the separator. */
  function Split(s: string, sep: char): (parts: seq<string>)
    ensures |parts| >= 1
    ensures forall i :: 0 <= i < |parts| ==> sep !in parts[i]
  {
    if |s| == 0 then [""]
    else
      var rest := Split(s[1..], sep);
      if s[0] == sep then [""] + rest
      else [[s[0]] + rest[0]] + rest[1..]
  }

  /** Joining a part in front of a non-empty sequence of parts. */
  lemma JoinCons(first: string, rest: seq<string>, sep: char)
    requires |rest| >= 1
    ensures Join([first] + rest, sep) == first + [sep] + Join(rest, sep)
  {
    assert ([first] + rest)[1..] == rest;
  }

  /** Extending the first part of a sequence of parts by one character in front. */
  lemma JoinExtendFirst(c: char, parts: seq<string>, sep: char)
    requires |parts| >= 1
    ensures Join([[c] + parts[0]] + parts[1..], sep) == [c] + Join(parts, sep)
  {
    if |parts| > 1 {
      JoinCons([c] + parts[0], parts[1..], sep);
      JoinCons(parts[0], parts[1..], sep);
      assert [parts[0]] + parts[1..] == parts;
    }
  }

  /** Joining the parts of a split gives back the input. */
  lemma {:induction false} JoinSplit(s: string, sep: char)
    ensures Join(Split(s, sep), sep) == s
  {
    if |s| > 0 {
      var rest := Split(s[1..], sep);
      JoinSplit(s[1..], sep);
      if s[0] == sep {
        JoinCons("", rest, sep);
        assert [sep] + s[1..] == s;
      } else {
        JoinExtendFirst(s[0], rest, sep);
        assert [s[0]] + s[1..] == s;
      }
    }
  }

  /** Splitting a string whose first `|a|` characters hold no separator. */
  lemma {:induction false} SplitPrefix(a: string, t: string, sep: char)
    requires sep !in a
    ensures Split(a + t, sep) == [a + Split(t, sep)[0]] + Split(t, sep)[1..]
  {
    if |a| > 0 {
      SplitPrefix(a[1..], t, sep);
      assert (a + t)[1..] == a[1..] + t;
      assert (a + t)[0] == a[0];
      assert [a[0]] + (a[1..] + Split(t, sep)[0]) == a + Split(t, sep)[0];
    } else {
      var parts := Split(t, sep);
      assert a + t == t;
      assert a + parts[0] == parts[0];
      assert [parts[0]] + parts[1..] == parts;
    }
  }

  /** Splitting a join of separator-free parts gives back the parts. */
  lemma {:induction false} SplitJoin(parts: seq<string>, sep: char)
    requires |parts| >= 1
    requires forall i :: 0 <= i < |parts| ==> sep !in parts[i]
    ensures Split(Join(parts, sep), sep) == parts
  {
    if |parts| == 1 {
      SplitPrefix(parts[0], "", sep);
      assert parts[0] + "" == parts[0];
    } else {
      var tail := Join(parts[1..], sep);
      SplitJoin(parts[1..], sep);
      SplitPrefix(parts[0], [sep] + tail, sep);
      assert parts[0] + [sep] + tail == parts[0] + ([sep] + tail);
      assert Split([sep] + tail, sep) == [""] + Split(tail, sep) by {
        assert ([sep] + tail)[1..] == tail;
      }
      assert parts[0] + "" == parts[0];
      assert [parts[0]] + parts[1..] == parts;
    }
  }

  /** `str.rfind` for one character: -1 when absent. */
  function LastIndexOf(s: string, c: char): (r: int)
    ensures -1 <= r < |s|
    ensures r >= 0 ==> s[r] == c
    ensures forall j :: r < j < |s| ==> s[j] != c
  {
    if |s| == 0 then -1
    else if s[|s| - 1] == c then |s| - 1
    else LastIndexOf(s[..|s| - 1], c)
  }

  /** `os.path.basename`: everything after the last '/'. */
  function Basename(p: string): string
  {
    p[LastIndexOf(p, '/') + 1..]
  }

  lemma BasenameIsLastComponent(p: string)
    ensures '/' !in Basename(p)
    ensures EndsWith(p, Basename(p))
    ensures |Basename(p)| < |p| ==> p[|p| - |Basename(p)| - 1] == '/'
  {
    var k := LastIndexOf(p, '/');
    var b := Basename(p);
    assert k + 1 + |b| == |p|;
    assert b == p[|p| - |b|..];
    forall i | 0 <= i < |b| ensures b[i] != '/' {
      assert b[i] == p[k + 1 + i];
    }
  }

  predicate AllDots(s: string)
  {
    forall i :: 0 <= i < |s| ==> s[i] == '.'
  }

  /** Where `os.path.splitext` (posixpath) cuts `p`, or -1 for no extension: at the
      last '.' of the last path component, unless only dots precede that '.' inside
      the component. */
  function ExtIndex(p: string): (d: int)
    ensures -1 <= d < |p|
    ensures d >= 0 ==> p[d] == '.'
    ensures d >= 0 ==> forall j :: d < j < |p| ==> p[j] != '.' && p[j] != '/'
    ensures d >= 0 ==> LastIndexOf(p, '/') < d && !AllDots(p[LastIndexOf(p, '/') + 1..d])
    ensures d == -1 ==> forall j :: LastIndexOf(p, '/') < j < |p| && p[j] == '.' ==>
      AllDots(p[LastIndexOf(p, '/') + 1..j])
  {
    var sepIndex := LastIndexOf(p, '/');
    var dotIndex := LastIndexOf(p, '.');
    if dotIndex > sepIndex && !AllDots(p[sepIndex + 1..dotIndex]) then dotIndex
    else
      assert forall j :: sepIndex < j < |p| && p[j] == '.' ==> AllDots(p[sepIndex + 1..j]) by {
        forall j | sepIndex < j < |p| && p[j] == '.' ensures AllDots(p[sepIndex + 1..j]) {
          assert j <= dotIndex;
          forall i | sepIndex < i < j ensures p[i] == '.' {
            assert p[i] == p[sepIndex + 1..dotIndex][i - sepIndex - 1];
          }
        }
      }
      -1
  }

  /** `os.path.splitext`: (root, extension). */
  function SplitExt(p: string): (r: (string, string))
    ensures r.0 + r.1 == p
  {
    var d := ExtIndex(p);
    if d >= 0 then
      assert p[..d] + p[d..] == p;
      (p[..d], p[d..])
    else (p, "")
  }

  /** The root and the extension put back together give the path; a non-empty
      extension is one '.' followed by neither a '.' nor a '/', and the last
      component has a non-dot before it; an empty extension means every '.' of the
      last component has only dots before it. */
  lemma SplitExtParts(p: string)
    ensures SplitExt(p).0 + SplitExt(p).1 == p
    ensures SplitExt(p).1 == [] || SplitExt(p).1[0] == '.'
    ensures forall i :: 0 < i < |SplitExt(p).1| ==> SplitExt(p).1[i] != '.'
    ensures '/' !in SplitExt(p).1
    ensures SplitExt(p).1 != [] ==>
      LastIndexOf(p, '/') < |SplitExt(p).0| && !AllDots(p[LastIndexOf(p, '/') + 1..|SplitExt(p).0|])
    ensures SplitExt(p).1 == [] ==> forall j :: LastIndexOf(p, '/') < j < |p| && p[j] == '.' ==>
      AllDots(p[LastIndexOf(p, '/') + 1..j])
  {
    SplitExtShape(p);
    SplitExtWhen(p);
  }

  lemma SplitExtShape(p: string)
    ensures SplitExt(p).0 + SplitExt(p).1 == p
    ensures SplitExt(p).1 == [] || SplitExt(p).1[0] == '.'
    ensures forall i :: 0 < i < |SplitExt(p).1| ==> SplitExt(p).1[i] != '.'
    ensures '/' !in SplitExt(p).1
  {
    var d := ExtIndex(p);
    if d >= 0 {
      var ext := p[d..];
      forall i | 0 <= i < |ext| ensures ext[i] != '/' && (i > 0 ==> ext[i] != '.') {
        assert ext[i] == p[d + i];
      }
      assert p[..d] + ext == p;
    }
  }

  lemma SplitExtWhen(p: string)
    ensures SplitExt(p).1 != [] ==>
      LastIndexOf(p, '/') < |SplitExt(p).0| && !AllDots(p[LastIndexOf(p, '/') + 1..|SplitExt(p).0|])
    ensures SplitExt(p).1 == [] ==> forall j :: LastIndexOf(p, '/') < j < |p| && p[j] == '.' ==>
      AllDots(p[LastIndexOf(p, '/') + 1..j])
  {
    var d := ExtIndex(p);
    if d >= 0 {
      assert |SplitExt(p).0| == d && SplitExt(p).1 != [];
    } else {
      assert SplitExt(p).1 == [];
    }
  }

  /** The last occurrence of `c` is at `k` when nothing after `k` is `c`. */
  lemma LastIndexOfAt(s: string, c: char, k: nat)
    requires k < |s| && s[k] == c
    requires forall j :: k < j < |s| ==> s[j] != c
    ensures LastIndexOf(s, c) == k
  {
  }

  /** A path `dir/stem.ext` whose stem does not consist of dots only splits into
      `dir/stem` and `.ext`, and its base name is `stem.ext`. */
  lemma SplitExtOfFile(dir: string, stem: string, ext: string)
    requires '/' !in stem && !AllDots(stem)
    requires |ext| >= 1 && ext[0] == '.'
    requires forall i :: 0 < i < |ext| ==> ext[i] != '.' && ext[i] != '/'
    ensures SplitExt(dir + "/" + stem + ext) == (dir + "/" + stem, ext)
    ensures Basename(dir + "/" + stem + ext) == stem + ext
  {
    var p := dir + "/" + stem + ext;
    var s := |dir|;
    var d := |dir| + 1 + |stem|;
    forall j | s < j < |p| ensures p[j] != '/' {
      if j < d {
        assert p[j] == stem[j - s - 1];
      } else {
        assert p[j] == ext[j - d];
      }
    }
    assert p[s] == '/';
    LastIndexOfAt(p, '/', s);
    forall j | d < j < |p| ensures p[j] != '.' {
      assert p[j] == ext[j - d];
    }
    assert p[d] == '.';
    LastIndexOfAt(p, '.', d);
    assert p[s + 1..d] == stem;
    assert p[..d] == dir + "/" + stem;
    assert p[d..] == ext;
    assert p[s + 1..] == stem + ext;
  }

  /** `os.path.join(a, b)` for two components (posixpath). */
  function PathJoin(a: string, b: string): string
  {
    if StartsWith(b, "/") then b
    else if a == "" || EndsWith(a, "/") then a + b
    else a + "/" + b
  }

  /** A name with no '/' that follows a '/' (or nothing) is the base name. */
  lemma BasenameAfterSlash(pre: string, b: string)
    requires '/' !in b
    requires pre == [] || pre[|pre| - 1] == '/'
    ensures Basename(pre + b) == b
  {
    var r := pre + b;
    var k := LastIndexOf(r, '/');
    forall j | |pre| <= j < |r| ensures r[j] != '/' {
      assert r[j] == b[j - |pre|];
    }
    if pre != [] {
      assert r[|pre| - 1] == '/';
    }
    assert k == |pre| - 1;
    assert r[|pre|..] == b;
  }

  /** Joining a directory with a plain name puts the name, unchanged, as the last
      component, right after the directory and at most one '/'. */
  lemma PathJoinName(a: string, b: string)
    requires '/' !in b
    ensures Basename(PathJoin(a, b)) == b
    ensures PathJoin(a, b) == a + b || PathJoin(a, b) == a + "/" + b
  {
    assert !StartsWith(b, "/") by {
      if |b| > 0 { assert b[0] != '/'; }
    }
    if a == "" || EndsWith(a, "/") {
      assert a != "" ==> a[|a| - 1] == '/' by {
        if a != "" { assert a[|a| - 1..] == "/"; }
      }
      BasenameAfterSlash(a, b);
    } else {
      BasenameAfterSlash(a + "/", b);
    }
  }

  /** A string without upper-case letters is its own lower-case form. */
  lemma LowerOfLowerCase(s: string)
    requires forall i :: 0 <= i < |s| ==> !IsUpper(s[i])
    ensures Lower(s) == s
  {
  }
}
