/**
  Cleaned absolute paths, as strings and as component sequences
  (internal/agentrpc/backup_v2.go, with the parts of path/filepath and strings it uses).
 */
module Paths {
  import opened Common

  /** The components of a cleaned absolute path; [] is the root. */
  type Path = seq<string>

  predicate ValidName(n: string) { n != "" && '/' !in n && n != "." && n != ".." }

  ghost predicate Clean(p: Path) { forall i :: 0 <= i < |p| ==> ValidName(p[i]) }

  function Slashed(p: Path): string {
    if p == [] then "" else "/" + p[0] + Slashed(p[1..])
  }

  function Render(p: Path): string { if p == [] then "/" else Slashed(p) }

  /** Component prefix: p is dir or below it. */
  predicate Under(p: Path, dir: Path) { dir <= p }

  // ----- isUnder ------------------------------------------------------------------

  function TrimSuffix(s: string, suffix: string): string {
    if |suffix| <= |s| && s[|s| - |suffix|..] == suffix then s[..|s| - |suffix|] else s
  }

  /** isUnder. */
  predicate IsUnder(p: string, dir: string) {
    p == dir || TrimSuffix(dir, "/") + "/" <= p
  }

  lemma FirstComponent(x: string, a: string, y: string, b: string)
    requires '/' !in x && '/' !in y
    requires a != [] && a[0] == '/' && (b == [] || b[0] == '/')
    requires x + a <= y + b
    ensures x == y && a <= b
  {
    var l, r := x + a, y + b;
    assert l == r[..|l|];
    forall i | 0 <= i < |x| ensures l[i] != '/' { assert l[i] == x[i] && x[i] in x; }
    forall i | 0 <= i < |y| ensures r[i] != '/' { assert r[i] == y[i] && y[i] in y; }
    assert l[|x|] == '/' && l[|x|] == r[|x|];
    assert |y| < |r| ==> r[|y|] == '/';
    assert |x| == |y|;
    assert x == l[..|x|] && y == r[..|x|];
    assert a == l[|x|..] && b == r[|x|..];
  }

  /** d followed by a slash starts p exactly when d is a proper component prefix of p. */
  lemma {:induction false} SlashedPrefix(d: Path, p: Path)
    requires Clean(d) && Clean(p)
    ensures Slashed(d) + "/" <= Slashed(p) <==> d < p
    decreases |d|
  {
    if d == [] {
    } else if p == [] {
    } else {
      SlashedPrefix(d[1..], p[1..]);
      assert d == [d[0]] + d[1..] && p == [p[0]] + p[1..];
      var a, b := Slashed(d[1..]) + "/", Slashed(p[1..]);
      assert Slashed(d) + "/" == "/" + (d[0] + a);
      assert Slashed(p) == "/" + (p[0] + b);
      if Slashed(d) + "/" <= Slashed(p) {
        assert d[0] + a == (Slashed(d) + "/")[1..] && p[0] + b == Slashed(p)[1..];
        FirstComponent(d[0], a, p[0], b);
        assert d < p;
      }
      if d < p {
        assert d[0] == p[0] && d[1..] < p[1..];
        assert Slashed(d) + "/" <= Slashed(p);
      }
    }
  }

  lemma {:induction false} SlashedInjective(d: Path, p: Path)
    requires Clean(d) && Clean(p) && Slashed(d) == Slashed(p)
    ensures d == p
    decreases |d|
  {
    if d != [] && p != [] {
      var a, b := Slashed(d[1..]) + "/", Slashed(p[1..]) + "/";
      assert Slashed(d) + "/" == "/" + (d[0] + a);
      assert Slashed(p) + "/" == "/" + (p[0] + b);
      assert d[0] + a == (Slashed(d) + "/")[1..] == (Slashed(p) + "/")[1..] == p[0] + b;
      FirstComponent(d[0], a, p[0], b);
      FirstComponent(p[0], b, d[0], a);
      assert Slashed(d[1..]) == a[..|a| - 1] == b[..|b| - 1] == Slashed(p[1..]);
      SlashedInjective(d[1..], p[1..]);
      assert d == [d[0]] + d[1..] && p == [p[0]] + p[1..];
    }
  }

  lemma {:induction false} SlashedEnd(p: Path)
    requires Clean(p) && p != []
    ensures Slashed(p) != "" && Slashed(p)[0] == '/'
    ensures Slashed(p)[|Slashed(p)| - 1] == p[|p| - 1][|p[|p| - 1]| - 1]
    ensures Slashed(p)[|Slashed(p)| - 1] != '/'
  {
    var s := Slashed(p);
    assert p[|p| - 1][|p[|p| - 1]| - 1] in p[|p| - 1];
    if |p| == 1 {
      assert p[1..] == [] && Slashed(p[1..]) == "";
      assert s == "/" + p[0] + "";
    } else {
      SlashedEnd(p[1..]);
      var t := Slashed(p[1..]);
      assert s == "/" + p[0] + t && s[|s| - 1] == t[|t| - 1];
      assert p[1..][|p[1..]| - 1] == p[|p| - 1];
    }
  }

  /** A rendered path is its names, each after a slash. */
  lemma {:induction false} SlashedAppend(p: Path, n: string)
    ensures Slashed(p + [n]) == Slashed(p) + "/" + n && Slashed([]) == ""
  {
    if p == [] {
      assert [n][1..] == [] && p + [n] == [n];
    } else {
      SlashedAppend(p[1..], n);
      assert (p + [n])[1..] == p[1..] + [n];
    }
  }

  lemma RenderInjective(p: Path, q: Path)
    requires Clean(p) && Clean(q)
    ensures Render(p) == Render(q) <==> p == q
  {
    if p != [] { SlashedEnd(p); }
    if q != [] { SlashedEnd(q); }
    if p != [] && q != [] && Render(p) == Render(q) {
      SlashedInjective(p, q);
    }
  }

  /** On cleaned absolute paths isUnder is the component-prefix relation. */
  lemma IsUnderIsPrefix(p: Path, dir: Path)
    requires Clean(p) && Clean(dir)
    ensures IsUnder(Render(p), Render(dir)) <==> Under(p, dir)
  {
    RenderInjective(p, dir);
    if p != [] { SlashedEnd(p); }
    if dir == [] {
      assert TrimSuffix("/", "/") + "/" == "/";
    } else {
      SlashedEnd(dir);
      var s := Render(dir);
      assert s[|s| - 1..] == [s[|s| - 1]];
      assert TrimSuffix(s, "/") == s;
      SlashedPrefix(dir, p);
    }
  }

  /** So it is a partial order on them. */
  lemma IsUnderPartialOrder(a: Path, b: Path, c: Path)
    requires Clean(a) && Clean(b) && Clean(c)
    ensures IsUnder(Render(a), Render(a))
    ensures IsUnder(Render(a), Render(b)) && IsUnder(Render(b), Render(a)) ==> a == b
    ensures IsUnder(Render(a), Render(b)) && IsUnder(Render(b), Render(c)) ==> IsUnder(Render(a), Render(c))
  {
    IsUnderIsPrefix(a, b);
    IsUnderIsPrefix(b, a);
    IsUnderIsPrefix(b, c);
    IsUnderIsPrefix(a, c);
    if Under(a, b) && Under(b, c) { UnderTransitive(a, b, c); }
  }

  /** Two paths that pass the two-way guard have disjoint trees. */
  lemma GuardSeparates(a: Path, b: Path, q: Path)
    requires Clean(a) && Clean(b)
    requires !IsUnder(Render(a), Render(b)) && !IsUnder(Render(b), Render(a))
    ensures !(Under(q, a) && Under(q, b))
  {
    IsUnderIsPrefix(a, b);
    IsUnderIsPrefix(b, a);
    if Under(q, a) && Under(q, b) {
      PrefixesCompare(a, b, q);
    }
  }

  lemma UnderTransitive(a: Path, b: Path, c: Path)
    requires Under(a, b) && Under(b, c)
    ensures Under(a, c)
  {
    assert c == b[..|c|] == a[..|c|];
  }

  lemma PrefixesCompare(a: Path, b: Path, q: Path)
    requires Under(q, a) && Under(q, b)
    ensures Under(a, b) || Under(b, a)
  {
    assert |a| <= |b| ==> a == b[..|a|];
    assert |b| <= |a| ==> b == a[..|b|];
  }

  // ----- filepath.Clean -------------------------------------------------------------

  /** The pieces between slashes; there is always one more piece than slashes. */
  function Split(s: string): seq<string> {
    if s == [] then [""]
    else
      var rest := Split(s[1..]);
      if s[0] == '/' then [""] + rest
      else [[s[0]] + rest[0]] + rest[1..]
  }

  /** Drop "" and ".", let ".." remove the component before it; at the root it has none. */
  function Resolve(parts: seq<string>, acc: Path): Path
    decreases |parts|
  {
    if parts == [] then acc
    else if parts[0] == "" || parts[0] == "." then Resolve(parts[1..], acc)
    else if parts[0] == ".." then Resolve(parts[1..], if acc == [] then [] else acc[..|acc| - 1])
    else Resolve(parts[1..], acc + [parts[0]])
  }

  predicate IsAbs(s: string) { s != "" && s[0] == '/' }

  /** filepath.Clean of an absolute path. */
  function CleanAbs(s: string): Path { Resolve(Split(s), []) }

  lemma {:induction false} SplitPieces(s: string)
    ensures |Split(s)| >= 1
    ensures forall i :: 0 <= i < |Split(s)| ==> '/' !in Split(s)[i]
  {
    if s != [] { SplitPieces(s[1..]); }
  }

  lemma {:induction false} ResolveIsClean(parts: seq<string>, acc: Path)
    requires Clean(acc) && forall i :: 0 <= i < |parts| ==> '/' !in parts[i]
    ensures Clean(Resolve(parts, acc))
    decreases |parts|
  {
    if parts != [] {
      if parts[0] == "" || parts[0] == "." {
        ResolveIsClean(parts[1..], acc);
      } else if parts[0] == ".." {
        ResolveIsClean(parts[1..], if acc == [] then [] else acc[..|acc| - 1]);
      } else {
        ResolveIsClean(parts[1..], acc + [parts[0]]);
      }
    }
  }

  lemma CleanAbsIsClean(s: string)
    ensures Clean(CleanAbs(s))
  {
    SplitPieces(s);
    ResolveIsClean(Split(s), []);
  }

  lemma {:induction false} SplitName(n: string, s: string)
    requires '/' !in n
    ensures |Split(s)| >= 1
    ensures Split(n + s) == [n + Split(s)[0]] + Split(s)[1..]
  {
    SplitPieces(s);
    if n == [] {
      assert n + s == s && n + Split(s)[0] == Split(s)[0];
      assert Split(s) == [Split(s)[0]] + Split(s)[1..];
    } else {
      assert '/' !in n[1..];
      SplitName(n[1..], s);
      assert (n + s)[1..] == n[1..] + s;
      assert n[0] in n;
      assert [n[0]] + (n[1..] + Split(s)[0]) == n + Split(s)[0];
    }
  }

  lemma {:induction false} SplitSlashed(p: Path)
    requires Clean(p)
    ensures Split(Slashed(p)) == [""] + p
    decreases |p|
  {
    if p != [] {
      SplitSlashed(p[1..]);
      SplitName(p[0], Slashed(p[1..]));
      var s := Slashed(p);
      assert s[1..] == p[0] + Slashed(p[1..]);
      assert p[0] + "" == p[0] && p == [p[0]] + p[1..];
      assert ([""] + p[1..])[1..] == p[1..];
      assert Split(s[1..]) == p;
    }
  }

  lemma {:induction false} ResolveNames(p: Path, acc: Path)
    requires Clean(p)
    ensures Resolve(p, acc) == acc + p
    decreases |p|
  {
    if p != [] {
      ResolveNames(p[1..], acc + [p[0]]);
      assert acc + [p[0]] + p[1..] == acc + p;
    }
  }

  /** Cleaning is the inverse of rendering. */
  lemma CleanOfRender(p: Path)
    requires Clean(p)
    ensures CleanAbs(Render(p)) == p
  {
    if p == [] {
      assert Split("/") == [""] + Split("") == ["", ""];
      assert ["", ""][1..] == [""] && [""][1..] == [];
    } else {
      SplitSlashed(p);
      assert ([""] + p)[1..] == p;
      ResolveNames(p, []);
    }
  }

  lemma {:induction false} SplitTrailing(s: string)
    ensures Split(s + "/") == Split(s) + [""]
  {
    if s == [] {
      assert s + "/" == "/" && Split("/") == [""] + Split("");
    } else {
      SplitTrailing(s[1..]);
      SplitPieces(s[1..]);
      assert (s + "/")[1..] == s[1..] + "/";
    }
  }

  lemma {:induction false} ResolveTrailing(parts: seq<string>, acc: Path)
    ensures Resolve(parts + [""], acc) == Resolve(parts, acc)
    decreases |parts|
  {
    if parts == [] {
      assert [""][1..] == [] && parts + [""] == [""];
    } else {
      assert (parts + [""])[1..] == parts[1..] + [""];
      if parts[0] == "" || parts[0] == "." {
        ResolveTrailing(parts[1..], acc);
      } else if parts[0] == ".." {
        ResolveTrailing(parts[1..], if acc == [] then [] else acc[..|acc| - 1]);
      } else {
        ResolveTrailing(parts[1..], acc + [parts[0]]);
      }
    }
  }

  /** Cleaning drops a trailing slash. */
  lemma CleanDropsSlash(s: string)
    ensures CleanAbs(s + "/") == CleanAbs(s)
  {
    SplitTrailing(s);
    ResolveTrailing(Split(s), []);
  }

  lemma {:induction false} ResolveAppend(parts: seq<string>, n: string, acc: Path)
    ensures var p := Resolve(parts, acc);
            Resolve(parts + [n], acc)
            == if n == "" || n == "." then p
               else if n == ".." then (if p == [] then [] else p[..|p| - 1])
               else p + [n]
    decreases |parts|
  {
    if parts == [] {
      assert parts + [n] == [n] && [n][1..] == [];
    } else {
      assert (parts + [n])[1..] == parts[1..] + [n];
      if parts[0] == "" || parts[0] == "." {
        ResolveAppend(parts[1..], n, acc);
      } else if parts[0] == ".." {
        ResolveAppend(parts[1..], n, if acc == [] then [] else acc[..|acc| - 1]);
      } else {
        ResolveAppend(parts[1..], n, acc + [parts[0]]);
      }
    }
  }

  lemma {:induction false} SplitAppend(s: string, n: string)
    requires '/' !in n
    ensures Split(s + "/" + n) == Split(s) + [n]
  {
    if s == [] {
      SplitName(n, "");
      assert s + "/" + n == "/" + n && ("/" + n)[1..] == n && n + "" == n;
    } else {
      SplitAppend(s[1..], n);
      SplitPieces(s[1..]);
      assert (s + "/" + n)[1..] == s[1..] + "/" + n;
    }
  }

  /**
    What cleaning makes of one more component: nothing and "." are dropped, ".."
    takes the component before it away, if there is one, a name is added.
   */
  lemma CleanAppend(s: string, n: string)
    requires IsAbs(s) && '/' !in n
    ensures var p := CleanAbs(s);
            CleanAbs(s + "/" + n)
            == if n == "" || n == "." then p
               else if n == ".." then (if p == [] then [] else p[..|p| - 1])
               else p + [n]
    ensures CleanAbs("/") == []
  {
    SplitAppend(s, n);
    ResolveAppend(Split(s), n, []);
    CleanOfRender([]);
  }

  // ----- cleaning never lengthens ------------------------------------------------------

  function Size(p: Path): nat { if p == [] then 0 else 1 + |p[0]| + Size(p[1..]) }

  lemma {:induction false} SizeConcat(p: Path, q: Path)
    ensures Size(p + q) == Size(p) + Size(q)
  {
    if p == [] {
      assert p + q == q;
    } else {
      SizeConcat(p[1..], q);
      assert (p + q)[1..] == p[1..] + q;
    }
  }

  lemma {:induction false} SlashedSize(p: Path)
    ensures |Slashed(p)| == Size(p)
  {
    if p != [] { SlashedSize(p[1..]); }
  }

  lemma {:induction false} SplitSize(s: string)
    ensures Size(Split(s)) == |s| + 1
  {
    if s != [] {
      SplitSize(s[1..]);
      SplitPieces(s[1..]);
      var rest := Split(s[1..]);
      if s[0] == '/' {
        assert ([""] + rest)[1..] == rest;
      } else {
        assert ([[s[0]] + rest[0]] + rest[1..])[1..] == rest[1..];
      }
    } else {
      assert [""][1..] == [];
    }
  }

  lemma {:induction false} ResolveSize(parts: seq<string>, acc: Path)
    ensures Size(Resolve(parts, acc)) <= Size(acc) + Size(parts)
    decreases |parts|
  {
    if parts != [] {
      if parts[0] == "" || parts[0] == "." {
        ResolveSize(parts[1..], acc);
      } else if parts[0] == ".." {
        var short := if acc == [] then [] else acc[..|acc| - 1];
        ResolveSize(parts[1..], short);
        if acc != [] {
          assert acc == short + [acc[|acc| - 1]];
          SizeConcat(short, [acc[|acc| - 1]]);
        }
      } else {
        ResolveSize(parts[1..], acc + [parts[0]]);
        SizeConcat(acc, [parts[0]]);
        assert [parts[0]][1..] == [];
      }
    }
  }

  lemma CleanNoLonger(s: string)
    requires IsAbs(s)
    ensures |Slashed(CleanAbs(s))| <= |s|
  {
    SplitSize(s);
    SplitPieces(s[1..]);
    var parts := Split(s);
    assert parts[0] == "" && Size(parts[1..]) == |s|;
    ResolveSize(parts[1..], []);
    SlashedSize(CleanAbs(s));
  }

  // ----- strings.TrimSpace and the pointer file --------------------------------------------

  /** unicode.IsSpace. */
  predicate IsSpace(c: char) {
    var n := c as int;
    9 <= n <= 13 || n == 32 || n == 0x85 || n == 0xA0 || n == 0x1680 || 0x2000 <= n <= 0x200a
    || n == 0x2028 || n == 0x2029 || n == 0x202f || n == 0x205f || n == 0x3000
  }

  /** The characters Go calls white space, by their code points. */
  lemma SpaceExactly(c: char)
    ensures IsSpace(c) <==>
              c as int in {9, 10, 11, 12, 13, 32, 133, 160, 5760, 8192, 8193, 8194, 8195, 8196, 8197, 8198, 8199, 8200,
                           8201, 8202, 8232, 8233, 8239, 8287, 12288}
  {
  }

  function TrimRight(s: string): string {
    if s != [] && IsSpace(s[|s| - 1]) then TrimRight(s[..|s| - 1]) else s
  }

  function TrimLeft(s: string): string {
    if s != [] && IsSpace(s[0]) then TrimLeft(s[1..]) else s
  }

  function TrimSpace(s: string): string { TrimRight(TrimLeft(s)) }

  lemma {:induction false} TrimRightPrefix(s: string)
    ensures |TrimRight(s)| <= |s| && TrimRight(s) == s[..|TrimRight(s)|]
    ensures TrimRight(s) == s <==> s == [] || !IsSpace(s[|s| - 1])
    ensures s != [] && !IsSpace(s[0]) ==> TrimRight(s) != [] && TrimRight(s)[0] == s[0]
  {
    if s != [] && IsSpace(s[|s| - 1]) {
      TrimRightPrefix(s[..|s| - 1]);
    }
  }

  lemma {:induction false} TrimLeftExactly(s: string) returns (a: string)
    ensures s == a + TrimLeft(s) && (forall i :: 0 <= i < |a| ==> IsSpace(a[i]))
    ensures TrimLeft(s) != [] ==> !IsSpace(TrimLeft(s)[0])
  {
    a := [];
    if s != [] && IsSpace(s[0]) {
      a := TrimLeftExactly(s[1..]);
      a := [s[0]] + a;
    }
  }

  lemma {:induction false} TrimRightExactly(s: string) returns (b: string)
    ensures s == TrimRight(s) + b && (forall i :: 0 <= i < |b| ==> IsSpace(b[i]))
    ensures TrimRight(s) != [] ==> !IsSpace(TrimRight(s)[|TrimRight(s)| - 1])
  {
    b := [];
    if s != [] && IsSpace(s[|s| - 1]) {
      b := TrimRightExactly(s[..|s| - 1]);
      b := b + [s[|s| - 1]];
    }
  }

  /** Trimming takes white space off both ends, all of it and nothing else. */
  lemma TrimSpaceExactly(s: string) returns (a: string, b: string)
    ensures var p := TrimSpace(s);
            && s == a + p + b
            && (forall i :: 0 <= i < |a| ==> IsSpace(a[i])) && (forall i :: 0 <= i < |b| ==> IsSpace(b[i]))
            && (p != [] ==> !IsSpace(p[0]) && !IsSpace(p[|p| - 1]))
  {
    a := TrimLeftExactly(s);
    b := TrimRightExactly(TrimLeft(s));
    TrimRightPrefix(TrimLeft(s));
  }

  /** What the pointer file holds for d, and what reading it back yields. */
  function PointerText(d: Path): string { Render(d) + "\n" }

  function ReadPointer(text: string): Option<Path> {
    var p := TrimSpace(text);
    if IsAbs(p) then Some(CleanAbs(p)) else None
  }

  predicate EndsInSpace(d: Path) {
    d != [] && d[|d| - 1] != "" && IsSpace(d[|d| - 1][|d[|d| - 1]| - 1])
  }

  /** The directory that is named once d is written to the pointer file. */
  function ReadBack(d: Path): Path {
    var r := ReadPointer(PointerText(d));
    if r.Some? then r.value else []
  }

  /**
    What is written is read back exactly when the path does not end in white
    space; otherwise a directory outside the one written is read back.
   */
  lemma PointerReadBack(d: Path)
    requires Clean(d)
    ensures ReadPointer(PointerText(d)) == Some(ReadBack(d)) && Clean(ReadBack(d))
    ensures ReadBack(d) == d <==> !EndsInSpace(d)
    ensures Under(ReadBack(d), d) ==> ReadBack(d) == d
  {
    var s, t := Render(d), PointerText(d);
    if d != [] { SlashedEnd(d); }
    assert s[0] == '/' && !IsSpace(s[0]) && t[0] == s[0];
    assert TrimLeft(t) == t;
    assert IsSpace(t[|t| - 1]) && t[..|t| - 1] == s;
    assert TrimRight(t) == TrimRight(s);
    TrimRightPrefix(s);
    var p := TrimSpace(t);
    assert IsAbs(p);
    CleanAbsIsClean(p);
    if EndsInSpace(d) {
      assert |p| < |s| == |Slashed(d)|;
      CleanNoLonger(p);
      if Under(CleanAbs(p), d) { SlashedMonotone(d, CleanAbs(p)); }
    } else {
      assert p == s;
      CleanOfRender(d);
    }
  }

  lemma SlashedMonotone(d: Path, p: Path)
    requires Under(p, d)
    ensures |Slashed(d)| <= |Slashed(p)|
  {
    SlashedSize(d);
    SlashedSize(p);
    SizeConcat(d, p[|d|..]);
    assert p == d + p[|d|..];
  }

  // ----- a path that is not read back -----------------------------------------------------------

  /** The same path with a blank at its end. */
  function Blanked(d: Path): Path
    requires d != []
  {
    d[..|d| - 1] + [d[|d| - 1] + " "]
  }

  lemma {:induction false} SlashedBlanked(d: Path)
    requires d != []
    ensures Slashed(Blanked(d)) == Slashed(d) + " "
  {
    var b := Blanked(d);
    if |d| == 1 {
      assert b == [d[0] + " "] && b[1..] == [] && d[1..] == [];
    } else {
      SlashedBlanked(d[1..]);
      assert b[0] == d[0] && b[1..] == Blanked(d[1..]);
    }
  }

  lemma BlankedIsClean(d: Path)
    requires Clean(d) && d != []
    ensures Clean(Blanked(d)) && EndsInSpace(Blanked(d))
    ensures !Under(d, Blanked(d)) && !Under(Blanked(d), d)
  {
    var n := d[|d| - 1];
    assert forall c :: c in n + " " ==> c in n || c == ' ';
    assert (n + " ")[|n|] == ' ';
    assert Blanked(d)[|d| - 1] == n + " " != n;
  }

  /** A directory with a blank at its end reads back as the one without. */
  lemma BlankedReadsBack(d: Path)
    requires Clean(d) && d != [] && !EndsInSpace(d)
    ensures ReadBack(Blanked(d)) == d
  {
    SlashedBlanked(d);
    SlashedEnd(d);
    var s, t := Slashed(d), Slashed(d) + " " + "\n";
    assert t[..|t| - 1] == s + " " && (s + " ")[..|s|] == s;
    assert TrimLeft(t) == t;
    assert TrimRight(t) == TrimRight(s + " ") == TrimRight(s) == s;
    CleanOfRender(d);
  }

  /** A request can name such a directory: the trailing slash keeps the blank until cleaning drops the slash. */
  lemma BlankSurvivesCleaning(d: Path)
    requires Clean(d) && d != []
    ensures var path := Render(d) + " /";
            IsAbs(TrimSpace(path)) && CleanAbs(TrimSpace(path)) == Blanked(d)
  {
    var path := Render(d) + " /";
    SlashedEnd(d);
    assert path[0] == '/' && path[|path| - 1] == '/' && !IsSpace('/');
    assert TrimLeft(path) == path && TrimRight(path) == path;
    BlankedIsClean(d);
    SlashedBlanked(d);
    CleanOfRender(Blanked(d));
    CleanDropsSlash(Slashed(Blanked(d)));
    assert path == Slashed(Blanked(d)) + "/";
  }
}
