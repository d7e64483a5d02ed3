// File names inside an archive (backend/app/photo_archive.py).
module DownloadNames {
  import opened Common

  // ----- one safe name -----

  // PurePath(s).name: the last component, where "" and "." do not count.
  function LastComponent(s: string, current: string, last: string): string {
    if s == "" then (if Counts(current) then current else last)
    else if s[0] == '/' then LastComponent(s[1..], "", if Counts(current) then current else last)
    else LastComponent(s[1..], current + [s[0]], last)
  }

  predicate Counts(component: string) {
    component != "" && component != "."
  }

  function Replace(s: string, old_: char, new_: char): string {
    seq(|s|, i requires 0 <= i < |s| => if s[i] == old_ then new_ else s[i])
  }

  predicate Keeps(c: char) {
    c as int >= 32 && c != '"' && c != ':'
  }

  function Filter(s: string): string {
    if s == "" then "" else (if Keeps(s[0]) then [s[0]] else []) + Filter(s[1..])
  }

  predicate Strippable(c: char) {
    c == ' ' || c == '.'
  }

  function Strip(s: string): string
    decreases |s|
  {
    if s == "" then ""
    else if Strippable(s[0]) then Strip(s[1..])
    else if Strippable(s[|s| - 1]) then Strip(s[..|s| - 1])
    else s
  }

  function SafeDownloadName(fileName: string, fallback: string): string {
    var name := Filter(LastComponent(Replace(fileName, '\\', '/'), "", ""));
    var stripped := Strip(Take(name, 200));
    if stripped == "" then fallback else stripped
  }

  predicate IsSeparator(c: char) {
    c == '/' || c == '\\'
  }

  predicate Plain(c: char) {
    c >= ' ' && c != '"' && c != ':' && !IsSeparator(c)
  }

  predicate IsDotOrBlank(c: char) {
    c == '.' || c == ' '
  }

  ghost predicate AllPlain(s: string) {
    forall c | c in s :: Plain(c)
  }

  // One path component: no control characters, quotes, colons or separators, and
  // no dot or blank at either end.
  ghost predicate Clean(name: string) {
    name != "" && AllPlain(name) && !IsDotOrBlank(name[0]) && !IsDotOrBlank(name[|name| - 1])
  }

  ghost predicate Safe(name: string) {
    Clean(name) && |name| <= 200
  }

  lemma {:induction false} LastComponentHasNoSlash(s: string, current: string, last: string)
    requires '/' !in current && '/' !in last
    ensures '/' !in LastComponent(s, current, last)
    ensures forall c | c in LastComponent(s, current, last) :: c in s || c in current || c in last
    decreases |s|
  {
    if s != "" {
      var last' := if Counts(current) then current else last;
      if s[0] == '/' {
        LastComponentHasNoSlash(s[1..], "", last');
      } else {
        LastComponentHasNoSlash(s[1..], current + [s[0]], last);
      }
    }
  }

  lemma {:induction false} FilterKeeps(s: string)
    ensures forall c | c in Filter(s) :: Keeps(c) && c in s
  {
    if s != "" {
      FilterKeeps(s[1..]);
    }
  }

  lemma {:induction false} StripEnds(s: string)
    ensures |Strip(s)| <= |s| && forall c | c in Strip(s) :: c in s
    ensures Strip(s) != "" ==> !Strippable(Strip(s)[0]) && !Strippable(Strip(s)[|Strip(s)| - 1])
    decreases |s|
  {
    if s != "" {
      if Strippable(s[0]) {
        StripEnds(s[1..]);
      } else if Strippable(s[|s| - 1]) {
        StripEnds(s[..|s| - 1]);
      }
    }
  }

  // Whatever the uploaded name, the result stays inside one directory, has no
  // control characters, quotes, colons or separators, and no dot or blank at
  // either end.
  lemma SafeNameIsSafe(fileName: string, fallback: string)
    ensures SafeDownloadName(fileName, fallback) == fallback || Safe(SafeDownloadName(fileName, fallback))
    ensures Safe(fallback) ==> Safe(SafeDownloadName(fileName, fallback))
  {
    var replaced := Replace(fileName, '\\', '/');
    var last := LastComponent(replaced, "", "");
    var name := Filter(last);
    LastComponentHasNoSlash(replaced, "", "");
    assert '\\' !in replaced;
    FilterKeeps(last);
    StripEnds(Take(name, 200));
    assert forall c | c in Take(name, 200) :: c in name;
  }

  // ----- which part of an uploaded name is kept -----

  // Nothing, or separators with only "." between them.
  predicate Idle(t: string) {
    t == "" || (IsSeparator(t[0]) && (Idle(t[1..]) || (|t| >= 2 && t[1] == '.' && Idle(t[2..]))))
  }

  // c is the last component of a path, whatever separators and dots follow it.
  ghost predicate LastIn(path: string, p: string, c: string, t: string) {
    && path == p + c + t && (p == "" || IsSeparator(p[|p| - 1])) && Idle(t)
    && c != "" && c != "." && forall x | x in c :: !IsSeparator(x)
  }

  function Slashed(s: string): string {
    Replace(s, '\\', '/')
  }

  lemma {:induction false} LastOfIdle(t: string, current: string, last: string)
    requires Idle(t)
    ensures LastComponent(Slashed(t), current, last) == if Counts(current) then current else last
    decreases |t|
  {
    if t != "" {
      var next := if Counts(current) then current else last;
      assert Slashed(t)[0] == '/' && Slashed(t)[1..] == Slashed(t[1..]);
      if Idle(t[1..]) {
        LastOfIdle(t[1..], "", next);
      } else {
        assert Slashed(t[1..])[0] == '.' && Slashed(t[1..])[1..] == Slashed(t[2..]);
        assert LastComponent(Slashed(t[1..]), "", next) == LastComponent(Slashed(t[2..]), "" + ['.'], next);
        LastOfIdle(t[2..], ".", next);
      }
    }
  }

  lemma {:induction false} LastOfRun(c: string, t: string, current: string, last: string)
    requires forall x | x in c :: !IsSeparator(x)
    ensures LastComponent(Slashed(c + t), current, last) == LastComponent(Slashed(t), current + c, last)
    decreases |c|
  {
    if c == "" {
      assert c + t == t && current + c == current;
    } else {
      assert c[0] in c && (c + t)[1..] == c[1..] + t;
      assert Slashed(c + t)[0] == c[0] && Slashed(c + t)[1..] == Slashed(c[1..] + t);
      LastOfRun(c[1..], t, current + [c[0]], last);
      assert current + [c[0]] + c[1..] == current + c;
    }
  }

  lemma {:induction false} LastOfPath(p: string, c: string, t: string, current: string, last: string)
    returns (l: string)
    requires p == "" || IsSeparator(p[|p| - 1])
    ensures LastComponent(Slashed(p + c + t), current, last)
         == LastComponent(Slashed(c + t), if p == "" then current else "", l)
    decreases |p|
  {
    if p == "" {
      assert p + c + t == c + t;
      l := last;
    } else {
      var s := Slashed(p + c + t);
      assert s[1..] == Slashed(p[1..] + c + t);
      if s[0] == '/' {
        l := LastOfPath(p[1..], c, t, "", if Counts(current) then current else last);
      } else {
        l := LastOfPath(p[1..], c, t, current + [s[0]], last);
      }
    }
  }

  lemma LastIs(path: string, p: string, c: string, t: string)
    requires LastIn(path, p, c, t)
    ensures LastComponent(Slashed(path), "", "") == c
  {
    var l := LastOfPath(p, c, t, "", "");
    LastOfRun(c, t, "", l);
    assert "" + c == c;
    LastOfIdle(t, c, l);
  }

  // The characters that are left of a component.
  ghost predicate AllKept(s: string) {
    forall x | x in s :: Keeps(x)
  }

  // The filter keeps printable characters but quotes and colons, in order.
  lemma {:induction false} FilterJoins(a: string, b: string)
    ensures Filter(a + b) == Filter(a) + Filter(b)
  {
    if a == "" {
      assert a + b == b;
    } else {
      assert (a + b)[1..] == a[1..] + b && (a + b)[0] == a[0];
      FilterJoins(a[1..], b);
      var first := if Keeps(a[0]) then [a[0]] else [];
      assert first + (Filter(a[1..]) + Filter(b)) == (first + Filter(a[1..])) + Filter(b);
    }
  }

  lemma FilterOfOne(x: char)
    ensures Filter([x]) == if x >= ' ' && x != '"' && x != ':' then [x] else ""
  {
    assert Filter([x]) == (if Keeps(x) then [x] else []) + Filter([x][1..]);
  }

  lemma {:induction false} FilterOfKept(s: string)
    requires AllKept(s)
    ensures Filter(s) == s
  {
    if s != "" {
      FilterOfKept(s[1..]);
    }
  }

  ghost predicate AllDotOrBlank(s: string) {
    forall x | x in s :: IsDotOrBlank(x)
  }

  // Strip removes dots and blanks at both ends and nothing else.
  lemma {:induction false} StripIs(s: string) returns (front: string, back: string)
    ensures s == front + Strip(s) + back && AllDotOrBlank(front) && AllDotOrBlank(back)
    ensures Strip(s) == "" <==> AllDotOrBlank(s)
    decreases |s|
  {
    if s == "" {
      front, back := "", "";
    } else if Strippable(s[0]) {
      front, back := StripIs(s[1..]);
      front := [s[0]] + front;
      assert s == [s[0]] + s[1..];
    } else if Strippable(s[|s| - 1]) {
      var init, last := s[..|s| - 1], s[|s| - 1];
      front, back := StripIs(init);
      back := back + [last];
      assert s == init + [last] && s[0] in s && init[0] == s[0];
    } else {
      front, back := "", "";
      assert s[0] in s;
    }
  }

  // What a name stands under: the last component's first 200 kept characters,
  // without dots and blanks at the ends, or the fallback exactly when nothing
  // else is among them.
  lemma SafeNameIs(path: string, p: string, c: string, t: string, fallback: string)
    returns (front: string, back: string)
    requires LastIn(path, p, c, t)
    ensures AllDotOrBlank(front) && AllDotOrBlank(back)
    ensures var kept := Take(Filter(c), 200);
      if AllDotOrBlank(kept) then SafeDownloadName(path, fallback) == fallback
      else kept == front + SafeDownloadName(path, fallback) + back
           && !IsDotOrBlank(SafeDownloadName(path, fallback)[0])
           && !IsDotOrBlank(SafeDownloadName(path, fallback)[|SafeDownloadName(path, fallback)| - 1])
  {
    LastIs(path, p, c, t);
    front, back := StripIs(Take(Filter(c), 200));
    StripEnds(Take(Filter(c), 200));
  }

  // A path of nothing but separators and dots has no component.
  lemma NoComponent(path: string, fallback: string)
    requires Idle("/" + path)
    ensures SafeDownloadName(path, fallback) == fallback
  {
    LastOfIdle("/" + path, "", "");
    assert Slashed("/" + path)[1..] == Slashed(path);
  }

  // A safe component is kept as it is.
  lemma SafeComponentIsKept(path: string, p: string, c: string, t: string, fallback: string)
    requires LastIn(path, p, c, t) && Safe(c)
    ensures SafeDownloadName(path, fallback) == c
  {
    LastIs(path, p, c, t);
    forall x | x in c ensures Keeps(x) {
      assert Plain(x);
    }
    FilterOfKept(c);
  }

  // ----- decimal numbers -----

  function Decimal(n: nat): (s: string)
    ensures s != "" && forall i | 0 <= i < |s| :: '0' <= s[i] <= '9'
  {
    var digit := ('0' as int + n % 10) as char;
    if n < 10 then [digit] else Decimal(n / 10) + [digit]
  }

  function Value(s: string): int {
    if s == "" then 0 else 10 * Value(s[..|s| - 1]) + (s[|s| - 1] as int - '0' as int)
  }

  lemma {:induction false} DecimalRoundTrip(n: nat)
    ensures Value(Decimal(n)) == n
  {
    if n >= 10 {
      DecimalRoundTrip(n / 10);
      assert Decimal(n)[..|Decimal(n)| - 1] == Decimal(n / 10);
    } else {
      assert Decimal(n)[..0] == "";
    }
  }

  // ----- distinct names -----

  // str.casefold works character by character and keeps ASCII digits; the
  // table itself is a parameter.
  predicate FoldTable(fold: char -> string) {
    forall c | '0' <= c <= '9' :: fold(c) == [c]
  }

  function Casefold(fold: char -> string, s: string): string {
    if s == "" then "" else fold(s[0]) + Casefold(fold, s[1..])
  }

  // The position of the last dot, or -1.
  function LastDot(s: string): (d: int)
    ensures -1 <= d < |s| && (d >= 0 ==> s[d] == '.')
    ensures forall i | d < i < |s| :: s[i] != '.'
  {
    if s == "" then -1
    else if s[|s| - 1] == '.' then |s| - 1
    else LastDot(s[..|s| - 1])
  }

  function Before(name: string): string {
    var d := LastDot(name);
    if d > 0 then name[..d] else name
  }

  function After(name: string): string {
    var d := LastDot(name);
    if d >= 0 then name[d..] else ""
  }

  // The k-th name tried, counting from 1.
  function Candidate(name: string, k: nat): string {
    if k <= 1 then name else Before(name) + "-" + Decimal(k) + After(name)
  }

  lemma {:induction false} CasefoldConcat(fold: char -> string, x: string, y: string)
    ensures Casefold(fold, x + y) == Casefold(fold, x) + Casefold(fold, y)
  {
    if x == "" {
      assert x + y == y;
    } else {
      assert (x + y)[1..] == x[1..] + y;
      CasefoldConcat(fold, x[1..], y);
    }
  }

  lemma {:induction false} CasefoldDigits(fold: char -> string, s: string)
    requires FoldTable(fold) && forall i | 0 <= i < |s| :: '0' <= s[i] <= '9'
    ensures Casefold(fold, s) == s
  {
    if s != "" {
      CasefoldDigits(fold, s[1..]);
      assert fold(s[0]) == [s[0]];
    }
  }

  lemma CasefoldCandidate(fold: char -> string, name: string, k: nat)
    requires FoldTable(fold) && k >= 2
    ensures Casefold(fold, Candidate(name, k))
         == Casefold(fold, Before(name)) + Casefold(fold, "-") + Decimal(k) + Casefold(fold, After(name))
  {
    CasefoldConcat(fold, Before(name) + "-" + Decimal(k), After(name));
    CasefoldConcat(fold, Before(name) + "-", Decimal(k));
    CasefoldConcat(fold, Before(name), "-");
    CasefoldDigits(fold, Decimal(k));
  }

  lemma CasefoldBase(fold: char -> string, name: string)
    ensures |Casefold(fold, name)| <= |Casefold(fold, Before(name))| + |Casefold(fold, After(name))|
  {
    var d := LastDot(name);
    if d > 0 {
      assert name == Before(name) + After(name);
      CasefoldConcat(fold, Before(name), After(name));
    }
  }

  // No two candidates of one name fold to the same string.
  lemma CandidatesDiffer(fold: char -> string, name: string, k: nat, m: nat)
    requires FoldTable(fold) && 1 <= k < m
    ensures Casefold(fold, Candidate(name, k)) != Casefold(fold, Candidate(name, m))
  {
    CasefoldCandidate(fold, name, m);
    var x, y := Casefold(fold, Before(name)) + Casefold(fold, "-"), Casefold(fold, After(name));
    if k == 1 {
      CasefoldBase(fold, name);
    } else {
      CasefoldCandidate(fold, name, k);
      var p, q := x + Decimal(k) + y, x + Decimal(m) + y;
      if p == q {
        assert Decimal(k) == p[|x|..|p| - |y|];
        assert Decimal(m) == q[|x|..|q| - |y|];
        DecimalRoundTrip(k);
        DecimalRoundTrip(m);
      }
    }
  }

  function Fallback(index: nat): string {
    "photo-" + Decimal(index) + ".jpg"
  }

  ghost function BaseNames(fileNames: seq<string>): seq<string> {
    seq(|fileNames|, i requires 0 <= i < |fileNames| => SafeDownloadName(fileNames[i], Fallback(i + 1)))
  }

  ghost function Folds(fold: char -> string, names: seq<string>): set<string> {
    set n | n in names :: Casefold(fold, n)
  }

  // Name i is the first candidate whose fold no earlier name has.
  ghost predicate FirstFree(fold: char -> string, names: seq<string>, i: nat, name: string, k: nat)
    requires i < |names|
  {
    && 1 <= k && names[i] == Candidate(name, k)
    && Casefold(fold, names[i]) !in Folds(fold, names[..i])
    && forall m | 1 <= m < k :: Casefold(fold, Candidate(name, m)) in Folds(fold, names[..i])
  }

  // The suffix search: `untried` are the used folds that no tried candidate
  // has; each failed try removes one, so at most |used| + 1 names are tried.
  method FindFree(fold: char -> string, name: string, used: set<string>) returns (candidate: string, ghost k: nat)
    requires FoldTable(fold)
    ensures 1 <= k <= |used| + 1 && candidate == Candidate(name, k)
    ensures Casefold(fold, candidate) !in used
    ensures forall m | 1 <= m < k :: Casefold(fold, Candidate(name, m)) in used
  {
    candidate := name;
    var suffix := 2;
    ghost var untried := used;
    while Casefold(fold, candidate) in used
      invariant suffix >= 2 && candidate == Candidate(name, suffix - 1)
      invariant untried <= used && |untried| + suffix - 2 == |used|
      invariant forall m | 1 <= m < suffix - 1 :: Casefold(fold, Candidate(name, m)) in used
      invariant forall m | suffix - 1 <= m :: Casefold(fold, Candidate(name, m)) in used ==>
                  Casefold(fold, Candidate(name, m)) in untried
      decreases |untried|
    {
      forall m | suffix <= m ensures Casefold(fold, Candidate(name, m)) != Casefold(fold, candidate) {
        CandidatesDiffer(fold, name, suffix - 1, m);
      }
      untried := untried - {Casefold(fold, candidate)};
      candidate := Before(name) + "-" + Decimal(suffix) + After(name);
      suffix := suffix + 1;
    }
    k := suffix - 1;
  }

  ghost predicate NamedAt(fold: char -> string, names: seq<string>, i: nat, base: string)
    requires i < |names|
  {
    exists k | 1 <= k <= i + 1 :: FirstFree(fold, names, i, base, k)
  }

  // What the whole list promises: each name is the first free candidate for its file.
  ghost predicate Unique(fold: char -> string, bases: seq<string>, names: seq<string>) {
    && |names| <= |bases|
    && forall i | 0 <= i < |names| :: NamedAt(fold, names, i, bases[i])
  }

  lemma FoldsAppend(fold: char -> string, names: seq<string>, name: string)
    ensures Folds(fold, names + [name]) == Folds(fold, names) + {Casefold(fold, name)}
  {
    assert forall n :: n in names + [name] <==> n in names || n == name;
  }

  lemma NamedAtStays(fold: char -> string, names: seq<string>, i: nat, base: string, name: string)
    requires i < |names| && NamedAt(fold, names, i, base)
    ensures NamedAt(fold, names + [name], i, base)
  {
    var k :| 1 <= k <= i + 1 && FirstFree(fold, names, i, base, k);
    assert (names + [name])[..i] == names[..i];
    assert FirstFree(fold, names + [name], i, base, k);
  }

  lemma NamedAtEnd(fold: char -> string, names: seq<string>, base: string, k: nat)
    requires 1 <= k <= |names| + 1
    requires Casefold(fold, Candidate(base, k)) !in Folds(fold, names)
    requires forall m | 1 <= m < k :: Casefold(fold, Candidate(base, m)) in Folds(fold, names)
    ensures NamedAt(fold, names + [Candidate(base, k)], |names|, base)
  {
    assert (names + [Candidate(base, k)])[..|names|] == names;
    assert FirstFree(fold, names + [Candidate(base, k)], |names|, base, k);
  }

  lemma UniqueAppend(fold: char -> string, bases: seq<string>, names: seq<string>, name: string)
    requires Unique(fold, bases, names) && |names| < |bases|
    requires NamedAt(fold, names + [name], |names|, bases[|names|])
    ensures Unique(fold, bases, names + [name])
  {
    forall i | 0 <= i < |names| ensures NamedAt(fold, names + [name], i, bases[i]) {
      NamedAtStays(fold, names, i, bases[i], name);
    }
  }

  // No two names collide, case ignored.
  lemma NamesAreDistinct(fold: char -> string, bases: seq<string>, names: seq<string>, i: nat, j: nat)
    requires Unique(fold, bases, names) && i < j < |names|
    ensures Casefold(fold, names[i]) != Casefold(fold, names[j]) && names[i] != names[j]
  {
    assert NamedAt(fold, names, j, bases[j]);
    assert names[i] == names[..j][i] && names[i] in names[..j];
    assert Casefold(fold, names[i]) in Folds(fold, names[..j]);
  }

  method UniqueDownloadNames(fold: char -> string, fileNames: seq<string>) returns (names: seq<string>)
    requires FoldTable(fold)
    ensures |names| == |fileNames| && Unique(fold, BaseNames(fileNames), names)
  {
    names := [];
    var used: set<string> := {};
    for index := 0 to |fileNames|
      invariant |names| == index == |used| && used == Folds(fold, names)
      invariant Unique(fold, BaseNames(fileNames), names)
    {
      var name := SafeDownloadName(fileNames[index], Fallback(index + 1));
      var candidate, k := FindFree(fold, name, used);
      NamedAtEnd(fold, names, name, k);
      UniqueAppend(fold, BaseNames(fileNames), names, candidate);
      FoldsAppend(fold, names, candidate);
      used := used + {Casefold(fold, candidate)};
      names := names + [candidate];
    }
  }

  // ----- every name of an archive is clean -----

  lemma PlainConcat(s: string, u: string)
    requires AllPlain(s) && AllPlain(u)
    ensures AllPlain(s + u)
  {
  }

  lemma DecimalIsPlain(n: nat)
    ensures AllPlain(Decimal(n)) && forall c | c in Decimal(n) :: !Strippable(c)
  {
  }

  lemma {:induction false} DecimalLength(n: nat)
    ensures n < 10 ==> |Decimal(n)| == 1
    ensures n >= 10 ==> |Decimal(n)| == |Decimal(n / 10)| + 1
  {
  }

  lemma FallbackIsClean(index: nat)
    ensures Clean(Fallback(index))
  {
    DecimalIsPlain(index);
    assert AllPlain("photo-") && AllPlain(".jpg");
    PlainConcat("photo-", Decimal(index));
    PlainConcat("photo-" + Decimal(index), ".jpg");
    assert Fallback(index)[0] == 'p' && Fallback(index)[|Fallback(index)| - 1] == 'g';
  }

  // No archive holds more files than the 16-bit count of its end record.
  lemma FallbackIsSafe(index: nat)
    requires index <= 0xFFFF
    ensures Safe(Fallback(index))
  {
    FallbackIsClean(index);
    DecimalLength(index);
    DecimalLength(index / 10);
    DecimalLength(index / 10 / 10);
    DecimalLength(index / 10 / 10 / 10);
    DecimalLength(index / 10 / 10 / 10 / 10);
  }

  // The parts of a clean name: the first is clean up to its end, and what
  // follows the last dot, if anything, ends as the name does.
  lemma PartsOfClean(name: string)
    requires Clean(name)
    ensures Before(name) != "" && AllPlain(Before(name)) && Before(name)[0] == name[0]
    ensures AllPlain(After(name)) && (After(name) != "" ==> After(name)[|After(name)| - 1] == name[|name| - 1])
  {
    forall c | c in Before(name) ensures c in name {
    }
    forall c | c in After(name) ensures c in name {
    }
  }

  lemma CandidateIsClean(name: string, k: nat)
    requires Clean(name)
    ensures Clean(Candidate(name, k))
  {
    if k > 1 {
      var front, digits, back := Before(name) + "-", Decimal(k), After(name);
      PartsOfClean(name);
      DecimalIsPlain(k);
      assert AllPlain("-");
      PlainConcat(Before(name), "-");
      PlainConcat(front, digits);
      PlainConcat(front + digits, back);
      EndsOf(front, digits, back);
    }
  }

  lemma EndsOf(front: string, digits: string, back: string)
    requires front != "" && digits != ""
    ensures var s := front + digits + back;
      s[0] == front[0] && s[|s| - 1] == if back == "" then digits[|digits| - 1] else back[|back| - 1]
  {
  }

  // Whatever was uploaded, every entry of an archive is one clean path component.
  lemma ArchiveNamesAreClean(fold: char -> string, fileNames: seq<string>, names: seq<string>, i: nat)
    requires Unique(fold, BaseNames(fileNames), names) && i < |names|
    ensures Clean(names[i])
  {
    var base := BaseNames(fileNames)[i];
    FallbackIsClean(i + 1);
    SafeNameIsSafe(fileNames[i], Fallback(i + 1));
    assert NamedAt(fold, names, i, base);
    var k :| 1 <= k <= i + 1 && FirstFree(fold, names, i, base, k);
    CandidateIsClean(base, k);
  }

  // In an archive every safe name has at most 200 characters before its suffix.
  lemma BaseNamesAreSafe(fileNames: seq<string>, i: nat)
    requires i < |fileNames| <= 0xFFFF
    ensures Safe(BaseNames(fileNames)[i])
  {
    FallbackIsSafe(i + 1);
    SafeNameIsSafe(fileNames[i], Fallback(i + 1));
  }

  // ----- which name each file gets -----

  // A decimal number has no leading zero; with its value that makes it the usual one.
  lemma {:induction false} DecimalStarts(n: nat)
    requires n > 0
    ensures Decimal(n)[0] != '0'
  {
    if n >= 10 {
      DecimalStarts(n / 10);
    }
  }

  // The suffix goes before the extension.
  lemma CandidateKeepsExtension(stem: string, extension: string, k: nat)
    requires stem != "" && '.' !in extension && k >= 2
    ensures Candidate(stem + "." + extension, k) == stem + "-" + Decimal(k) + "." + extension
  {
    var name := stem + "." + extension;
    var d := LastDot(name);
    assert name[|stem|] == '.';
    forall i | |stem| < i < |name| ensures name[i] != '.' {
      assert name[i] == extension[i - |stem| - 1] && name[i] in extension;
    }
    assert name[..d] == stem && name[d..] == "." + extension;
    assert stem + "-" + Decimal(k) + ("." + extension) == stem + "-" + Decimal(k) + "." + extension;
  }

  lemma CandidateWithoutExtension(name: string, k: nat)
    requires '.' !in name && k >= 2
    ensures Candidate(name, k) == name + "-" + Decimal(k)
  {
    assert After(name) == "";
  }

  // Name i is c when no earlier name folds to it, and otherwise c with the first
  // free suffix.
  ghost predicate NamedAfter(fold: char -> string, names: seq<string>, i: nat, c: string)
    requires i < |names|
  {
    if Casefold(fold, c) !in Folds(fold, names[..i]) then names[i] == c
    else exists k | 2 <= k <= i + 1 :: FirstFree(fold, names, i, c, k)
  }

  ghost predicate Hopeless(path: string, p: string, c: string, t: string) {
    LastIn(path, p, c, t) && AllDotOrBlank(Take(Filter(c), 200))
  }

  // Every file is named after its own last component if that is safe, and after
  // its number if nothing of the component can be kept.
  ghost predicate NamedAfterFiles(fold: char -> string, fileNames: seq<string>, names: seq<string>) {
    && |names| == |fileNames|
    && (forall i, p, c, t | 0 <= i < |names| && LastIn(fileNames[i], p, c, t) && Safe(c) ::
          NamedAfter(fold, names, i, c))
    && (forall i, p, c, t | 0 <= i < |names| && Hopeless(fileNames[i], p, c, t) ::
          NamedAfter(fold, names, i, "photo-" + Decimal(i + 1) + ".jpg"))
  }

  lemma UniqueIsNamedAfter(fold: char -> string, fileNames: seq<string>, names: seq<string>, i: nat)
    requires Unique(fold, BaseNames(fileNames), names) && i < |names|
    ensures NamedAfter(fold, names, i, BaseNames(fileNames)[i])
  {
    assert NamedAt(fold, names, i, BaseNames(fileNames)[i]);
    var k :| 1 <= k <= i + 1 && FirstFree(fold, names, i, BaseNames(fileNames)[i], k);
    assert Candidate(BaseNames(fileNames)[i], 1) == BaseNames(fileNames)[i];
  }

  lemma SafeIsNamed(fold: char -> string, fileNames: seq<string>, names: seq<string>, i: nat, p: string, c: string,
                    t: string)
    requires Unique(fold, BaseNames(fileNames), names) && i < |names|
    requires LastIn(fileNames[i], p, c, t) && Safe(c)
    ensures NamedAfter(fold, names, i, c)
  {
    SafeComponentIsKept(fileNames[i], p, c, t, Fallback(i + 1));
    UniqueIsNamedAfter(fold, fileNames, names, i);
  }

  lemma HopelessIsNumbered(fold: char -> string, fileNames: seq<string>, names: seq<string>, i: nat, p: string,
                           c: string, t: string)
    requires Unique(fold, BaseNames(fileNames), names) && i < |names| && Hopeless(fileNames[i], p, c, t)
    ensures NamedAfter(fold, names, i, "photo-" + Decimal(i + 1) + ".jpg")
  {
    var front, back := SafeNameIs(fileNames[i], p, c, t, Fallback(i + 1));
    UniqueIsNamedAfter(fold, fileNames, names, i);
  }

  lemma UniqueIsNamedAfterFiles(fold: char -> string, fileNames: seq<string>, names: seq<string>)
    requires Unique(fold, BaseNames(fileNames), names) && |names| == |fileNames|
    ensures NamedAfterFiles(fold, fileNames, names)
  {
    forall i, p, c, t | 0 <= i < |names| && LastIn(fileNames[i], p, c, t) && Safe(c)
      ensures NamedAfter(fold, names, i, c)
    {
      SafeIsNamed(fold, fileNames, names, i, p, c, t);
    }
    forall i, p, c, t | 0 <= i < |names| && Hopeless(fileNames[i], p, c, t)
      ensures NamedAfter(fold, names, i, "photo-" + Decimal(i + 1) + ".jpg")
    {
      HopelessIsNumbered(fold, fileNames, names, i, p, c, t);
    }
  }
}
