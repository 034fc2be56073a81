// Path queries and edits on Windows-style paths: '/' and '\' are both
// separators and "x:" is a drive prefix.  Queries take the characters of a
// C string (no NUL); edits work on a Str.StrImpl buffer.
module Path {
  import opened Common
  import opened Str

  predicate IsSep(c: char) { c == '/' || c == '\\' }

  /** The platform separator, PATH_SEP. */
  const PathSep: char := '\\'

  /** path[0] && path[1] == ':' */
  predicate HasDrivePrefix(s: seq<char>) { |s| >= 2 && s[1] == ':' }

  function LastSeparator(s: seq<char>): (r: Option<nat>)
    ensures r.None? ==> forall i :: 0 <= i < |s| ==> !IsSep(s[i])
    ensures r.Some? ==> (r.value < |s| && IsSep(s[r.value]) &&
      forall i :: r.value < i < |s| ==> !IsSep(s[i]))
  {
    if s == [] then None
    else if IsSep(s[|s| - 1]) then Some(|s| - 1)
    else LastSeparator(s[..|s| - 1])
  }

  /** The start of the run of separators that ends at i. */
  function RunStart(s: seq<char>, i: nat): (f: nat)
    requires i < |s| && IsSep(s[i])
    ensures f <= i && (f == 0 || !IsSep(s[f - 1]))
    ensures forall k :: f <= k <= i ==> IsSep(s[k])
  {
    if i > 0 && IsSep(s[i - 1]) then RunStart(s, i - 1) else i
  }

  /**
   * get_directory_end: the length of the directory part.  A trailing run of
   * separators is dropped unless it is the leading one, and a root
   * separator, alone or after a drive, is kept.
   */
  function DirectoryEnd(s: seq<char>): (r: nat)
    ensures r <= |s|
  {
    match LastSeparator(s)
    case Some(l) =>
      var f := RunStart(s, l);
      var slash := if f != 0 then f else l;
      var slash' := if slash == 0 then 1 else slash;
      if HasDrivePrefix(s) && slash' == 2 then 3 else slash'
    case None => if HasDrivePrefix(s) then 2 else 0
  }

  /** get_name: the start of the last component. */
  function NameStart(s: seq<char>): (r: nat)
    ensures r <= |s| && forall i :: r <= i < |s| ==> !IsSep(s[i])
    ensures r == 0 || IsSep(s[r - 1]) || (r == 2 && HasDrivePrefix(s))
  {
    match LastSeparator(s)
    case Some(l) => l + 1
    case None => if HasDrivePrefix(s) then 2 else 0
  }

  /** "one/two/three///" has directory "one/two/three"; a "x:" directory keeps its separator. */
  lemma DirectoryStripsTrailing(d: seq<char>, run: seq<char>, name: seq<char>)
    requires |d| > 0 && !IsSep(d[|d| - 1])
    requires |run| > 0 && forall i :: 0 <= i < |run| ==> IsSep(run[i])
    requires forall i :: 0 <= i < |name| ==> !IsSep(name[i])
    ensures DirectoryEnd(d + run + name) == if |d| == 2 && d[1] == ':' then 3 else |d|
  {
    var s := d + run + name;
    var l := |d| + |run| - 1;
    assert IsSep(s[l]);
    assert forall i :: l < i < |s| ==> s[i] == name[i - |d| - |run|];
    assert LastSeparator(s) == Some(l);
    assert s[|d| - 1] == d[|d| - 1];
    assert !IsSep(s[|d| - 1]);
    assert forall k :: |d| <= k <= l ==> s[k] == run[k - |d|];
  }

  /** A leading run of separators keeps all but one of them ("/one" has directory "/"). */
  lemma DirectoryOfRootedName(run: seq<char>, name: seq<char>)
    requires |run| > 0 && forall i :: 0 <= i < |run| ==> IsSep(run[i])
    requires forall i :: 0 <= i < |name| ==> !IsSep(name[i])
    ensures DirectoryEnd(run + name) == Max(1, |run| - 1)
  {
    var s := run + name;
    var l := |run| - 1;
    assert IsSep(s[l]);
    assert forall i :: l < i < |s| ==> s[i] == name[i - |run|];
    assert LastSeparator(s) == Some(l);
    assert RunStart(s, l) == 0;
  }

  /** A path without separators has an empty directory, or just its drive ("e:one" gives "e:"). */
  lemma DirectoryOfName(name: seq<char>)
    requires forall i :: 0 <= i < |name| ==> !IsSep(name[i])
    ensures DirectoryEnd(name) == if HasDrivePrefix(name) then 2 else 0
  {
  }

  /** Directory, separators and name partition the path. */
  lemma DirectoryBeforeName(s: seq<char>)
    ensures DirectoryEnd(s) <= NameStart(s)
    ensures forall i :: DirectoryEnd(s) <= i < NameStart(s) ==> IsSep(s[i])
  {
    match LastSeparator(s)
    case Some(l) =>
      var f := RunStart(s, l);
      if f == 0 && l > 0 {
        assert IsSep(s[1]);
      }
    case None =>
  }

  /** get_drive: "x:" with an ASCII letter x. */
  predicate HasDrive(s: seq<char>) { |s| >= 2 && s[1] == ':' && IsAlpha(s[0]) }

  /** is_rooted: a separator after the optional drive prefix. */
  predicate IsRooted(s: seq<char>)
  {
    IsSep(Ch(s, if HasDrivePrefix(s) then 2 else 0))
  }

  predicate AllSeparators(s: seq<char>) { forall i :: 0 <= i < |s| ==> IsSep(s[i]) }

  /** is_root: "x:", "x:" and one separator, or nothing but separators. */
  function IsRoot(s: seq<char>): (r: bool)
    ensures r && !HasDrivePrefix(s) ==> AllSeparators(s)
  {
    if HasDrivePrefix(s) && (|s| == 2 || (|s| == 3 && IsSep(s[2]))) then true
    else SkipSeparators(s, 0) == |s|
  }

  /** Advances over separators from i. */
  function SkipSeparators(s: seq<char>, i: nat): (j: nat)
    requires i <= |s|
    ensures i <= j <= |s| && (j == |s| || !IsSep(s[j]))
    ensures forall k :: i <= k < j ==> IsSep(s[k])
    decreases |s| - i
  {
    if i < |s| && IsSep(s[i]) then SkipSeparators(s, i + 1) else i
  }

  /** Advances over the characters of a component from i. */
  function SkipName(s: seq<char>, i: nat): (j: nat)
    requires i <= |s|
    ensures i <= j <= |s| && (j == |s| || IsSep(s[j]))
    ensures forall k :: i <= k < j ==> !IsSep(s[k])
    decreases |s| - i
  {
    if i < |s| && !IsSep(s[i]) then SkipName(s, i + 1) else i
  }

  /** A root has no name component, and a rooted name is not a root. */
  lemma RootHasNoName(s: seq<char>)
    ensures IsRoot(s) && !IsSep(Ch(s, 0)) ==> NameStart(s) == |s|
    ensures IsRooted(s) && !IsRoot(s) && !HasDrivePrefix(s) ==> exists i :: 0 <= i < |s| && !IsSep(s[i])
  {
    if IsRoot(s) && !HasDrivePrefix(s) && s != [] {
      assert IsSep(s[|s| - 1]);
    }
  }

  /** The examples of the is_root and is_rooted tests. */
  lemma RootExamples()
    ensures IsRoot("") && IsRoot("e:") && IsRoot("e:/") && IsRoot("e:\\") && IsRoot("/") && IsRoot("\\")
    ensures !IsRoot("e:one") && !IsRoot("e:/one") && !IsRoot("/one") && !IsRoot("one")
    ensures IsRooted("e:/one") && IsRooted("\\one") && !IsRooted("e:") && !IsRooted("e:one") && !IsRooted("")
  {
    assert !IsSep("e:one"[0]);
    assert !IsSep("e:/one"[0]);
    assert !IsSep("/one"[1]);
    assert !IsSep("one"[0]);
  }

  // ---- get_extension -----------------------------------------------------

  /** The characters that forget a '.' seen before them. */
  predicate StopsExtension(c: char) { c == ' ' || c == '/' || c == '\\' || c == ':' }

  /** An extension start: a '.', not last, with no '.', space, separator or ':' after it. */
  predicate ExtensionAt(s: seq<char>, i: int)
  {
    0 <= i < |s| - 1 && s[i] == '.' &&
    forall j :: i < j < |s| ==> s[j] != '.' && !StopsExtension(s[j])
  }

  /** The scan of get_extension: ext is the last '.' not followed by a stop, or -1. */
  function ExtensionScan(s: seq<char>, i: nat, ext: int): int
    requires i <= |s|
    decreases |s| - i
  {
    if i == |s| then ext
    else ExtensionScan(s, i + 1, if s[i] == '.' then i else if StopsExtension(s[i]) then -1 else ext)
  }

  lemma {:induction false} ExtensionScanFinds(s: seq<char>, i: nat, ext: int)
    requires i <= |s| && -1 <= ext < i
    requires ext >= 0 ==> s[ext] == '.' && forall j :: ext < j < i ==> s[j] != '.' && !StopsExtension(s[j])
    ensures var e := ExtensionScan(s, i, ext);
      -1 <= e < |s| &&
      (e >= 0 ==> s[e] == '.' && forall j :: e < j < |s| ==> s[j] != '.' && !StopsExtension(s[j])) &&
      (e == -1 ==> ext == -1 || exists j :: ext < j < |s| && StopsExtension(s[j])) &&
      (e == -1 ==> forall j :: i <= j < |s| && s[j] == '.' ==> exists k :: j < k < |s| && StopsExtension(s[k])) &&
      (e >= 0 && e < i ==> e == ext)
    decreases |s| - i
  {
    if i < |s| {
      var ext' := if s[i] == '.' then i else if StopsExtension(s[i]) then -1 else ext;
      ExtensionScanFinds(s, i + 1, ext');
    }
  }

  /**
   * get_extension: the index of the extension's '.', or |s| (the
   * terminator) when there is none.
   */
  function GetExtension(s: seq<char>): (r: nat)
    ensures r <= |s|
    ensures r < |s| <==> exists i :: ExtensionAt(s, i)
    ensures r < |s| ==> ExtensionAt(s, r)
  {
    ExtensionScanFinds(s, 0, -1);
    var e := ExtensionScan(s, 0, -1);
    if e >= 0 && e + 1 < |s| then
      assert ExtensionAt(s, e);
      e
    else
      assert !exists i :: ExtensionAt(s, i) by {
        if i :| ExtensionAt(s, i) {
          if e >= 0 {
            assert e == |s| - 1;
            assert s[e] == '.';
          }
        }
      }
      |s|
  }

  /** The extension lies inside the name component. */
  lemma ExtensionInName(s: seq<char>)
    ensures GetExtension(s) < |s| ==> NameStart(s) <= GetExtension(s)
  {
    var r := GetExtension(s);
    if r < |s| {
      assert forall j :: r < j < |s| ==> !IsSep(s[j]) && s[j] != ':';
    }
  }

  /** The examples of the get_extension tests. */
  lemma ExtensionExamples()
    ensures GetExtension("one/two/three\\filename.ext") == 22
    ensures GetExtension("..") == 2 && GetExtension("abc") == 3 && GetExtension("./one/two") == 9
    ensures GetExtension(".ext") == 0 && GetExtension("filename..ext") == 9
  {
    assert ExtensionAt("one/two/three\\filename.ext", 22);
    assert !ExtensionAt("..", 0) && !ExtensionAt("..", 1);
    assert !exists i :: ExtensionAt("..", i);
    assert forall i :: 0 <= i < 3 ==> "abc"[i] != '.';
    assert !exists i :: ExtensionAt("./one/two", i) by {
      forall i | 0 <= i < 8 ensures !ExtensionAt("./one/two", i) {
        if i == 0 { assert StopsExtension("./one/two"[1]); }
      }
    }
    assert ExtensionAt(".ext", 0);
    assert ExtensionAt("filename..ext", 9);
  }

  // ---- is_incomplete_unc -------------------------------------------------

  /**
   * is_incomplete_unc: a path that starts with two separators but lacks a
   * server name, a separator, a share name or the separator after it.
   */
  function IsIncompleteUnc(s: seq<char>): bool
  {
    if !IsSep(Ch(s, 0)) || !IsSep(Ch(s, 1)) then false
    else
      var server := SkipSeparators(s, 0);
      if IsSpace(Ch(s, server)) then true
      else
        var afterServer := SkipName(s, server);
        if !IsSep(Ch(s, afterServer)) then true
        else
          var share := SkipSeparators(s, afterServer);
          if IsSpace(Ch(s, share)) then true
          else !IsSep(Ch(s, SkipName(s, share)))
  }

  /** "\\server\share\" and anything after it is a complete enough UNC path. */
  lemma CompleteUnc(lead: seq<char>, server: seq<char>, share: seq<char>, rest: seq<char>)
    requires |lead| >= 2 && AllSeparators(lead)
    requires |server| > 0 && !IsSpace(server[0]) && forall i :: 0 <= i < |server| ==> !IsSep(server[i])
    requires |share| > 0 && !IsSpace(share[0]) && forall i :: 0 <= i < |share| ==> !IsSep(share[i])
    ensures !IsIncompleteUnc(lead + server + ['\\'] + share + ['\\'] + rest)
  {
    var s := lead + server + ['\\'] + share + ['\\'] + rest;
    var a := |lead|;
    var b := a + |server|;
    var c := b + 1;
    var d := c + |share|;
    assert s[0] == lead[0] && s[1] == lead[1];
    assert s[a] == server[0];
    assert forall k :: 0 <= k < a ==> s[k] == lead[k];
    assert !IsSep(s[a]);
    assert SkipSeparators(s, 0) == a;
    assert forall k :: a <= k < b ==> s[k] == server[k - a];
    assert s[b] == '\\';
    assert SkipName(s, a) == b;
    assert s[c] == share[0];
    assert SkipSeparators(s, b) == c;
    assert forall k :: c <= k < d ==> s[k] == share[k - c];
    assert s[d] == '\\';
    assert SkipName(s, c) == d;
  }

  /** A server name with no separator after it is incomplete ("\\x"). */
  lemma ServerOnlyIsIncomplete(server: seq<char>)
    requires forall i :: 0 <= i < |server| ==> !IsSep(server[i])
    ensures IsIncompleteUnc("\\\\" + server)
  {
    var s := "\\\\" + server;
    assert SkipSeparators(s, 0) == 2 by {
      if |server| > 0 { assert s[2] == server[0]; }
    }
  }

  // ---- edits on a str buffer ---------------------------------------------

  /** get_directory(in_out): truncates to the directory part. */
  method GetDirectory(path: StrImpl)
    requires path.Valid()
    modifies path, path.data
    ensures path.Valid() && path.data == old(path.data)
    ensures path.Contents() == old(path.Contents())[..DirectoryEnd(old(path.Contents()))]
  {
    ghost var s := path.Contents();
    path.Truncate(DirectoryEnd(path.data[..path.len]));
  }

  /** get_directory(in, out): appends the directory part of input. */
  method GetDirectoryInto(input: seq<char>, out: StrImpl) returns (ok: bool)
    requires IsCString(input) && out.Valid()
    modifies out, out.data
    ensures out.Valid() && out.Size() >= old(out.Size())
    ensures var k := Min(DirectoryEnd(input), out.Size() - 1 - old(|out.Contents()|));
      out.Contents() == old(out.Contents()) + input[..k] && (ok <==> k == DirectoryEnd(input))
  {
    ok := out.ConcatN(Some(input), DirectoryEnd(input));
  }

  /** get_drive(in, out): appends "x:" when input starts with a drive. */
  method GetDriveInto(input: seq<char>, out: StrImpl) returns (ok: bool)
    requires IsCString(input) && out.Valid()
    modifies out, out.data
    ensures out.Valid() && out.Size() >= old(out.Size())
    ensures !HasDrive(input) ==> !ok && out.Contents() == old(out.Contents())
    ensures HasDrive(input) ==> var k := Min(2, out.Size() - 1 - old(|out.Contents()|));
      out.Contents() == old(out.Contents()) + input[..k] && (ok <==> k == 2)
  {
    if !HasDrive(input) {
      return false;
    }
    ok := out.ConcatN(Some(input), 2);
  }

  /**
   * get_drive(in_out): keeps only the drive.  The result compares the
   * buffer's size, not the string's length, with 2.
   */
  method GetDrive(path: StrImpl) returns (ok: bool)
    requires path.Valid()
    modifies path, path.data
    ensures path.Valid()
    ensures !HasDrive(old(path.Contents())) ==> !ok && path.Contents() == old(path.Contents())
    ensures HasDrive(old(path.Contents())) ==> path.Contents() == old(path.Contents())[..2] && ok == (path.Size() > 2)
  {
    var c0 := path.At(0);
    var c1 := path.At(1);
    if c1 != ':' || !IsAlpha(c0) {
      return false;
    }
    path.Truncate(2);
    ok := path.Size() > 2;
  }

  /** get_extension(in, out): appends the extension. */
  method GetExtensionInto(input: seq<char>, out: StrImpl) returns (ok: bool)
    requires IsCString(input) && out.Valid()
    modifies out, out.data
    ensures out.Valid() && out.Size() >= old(out.Size())
    ensures var ext := input[GetExtension(input)..];
      var k := Min(|ext|, out.Size() - 1 - old(|out.Contents()|));
      out.Contents() == old(out.Contents()) + ext[..k] && (ok <==> k == |ext|)
  {
    ok := out.Concat(input[GetExtension(input)..]);
  }

  /** get_name(in, out): appends the last component. */
  method GetNameInto(input: seq<char>, out: StrImpl) returns (ok: bool)
    requires IsCString(input) && out.Valid()
    modifies out, out.data
    ensures out.Valid() && out.Size() >= old(out.Size())
    ensures var name := input[NameStart(input)..];
      var k := Min(|name|, out.Size() - 1 - old(|out.Contents()|));
      out.Contents() == old(out.Contents()) + name[..k] && (ok <==> k == |name|)
  {
    ok := out.Concat(input[NameStart(input)..]);
  }

  /** Whether append puts a separator between lhs and rhs. */
  predicate NeedsSeparator(lhs: seq<char>)
  {
    |lhs| > 0 && !IsSep(lhs[|lhs| - 1]) && !(|lhs| == 2 && IsAlpha(lhs[0]) && lhs[1] == ':')
  }

  /** The path append builds: a rooted rhs replaces lhs, otherwise at most one separator joins them. */
  function Joined(lhs: seq<char>, rhs: seq<char>): seq<char>
  {
    if IsRooted(rhs) then rhs
    else lhs + (if NeedsSeparator(lhs) && !IsSep(Ch(rhs, 0)) then [PathSep] else []) + rhs
  }

  /** What a buffer of `size` characters holds after append: as much of the joined path as fits. */
  function AppendResult(lhs: seq<char>, rhs: seq<char>, size: nat): seq<char>
    requires size > 0
  {
    var j := Joined(lhs, rhs);
    j[..Min(|j|, size - 1)]
  }

  /** append(out, rhs): appends path rhs, cutting what does not fit. */
  method Append(out: StrImpl, rhs: seq<char>) returns (ok: bool)
    requires IsCString(rhs) && out.Valid()
    modifies out, out.data
    ensures out.Valid()
    ensures out.Contents() == AppendResult(old(out.Contents()), rhs, out.Size())
    ensures ok <==> rhs == [] || |out.Contents()| == |Joined(old(out.Contents()), rhs)|
  {
    if IsRooted(rhs) {
      ok := out.Copy(rhs);
    } else {
      ok := AppendRelative(out, rhs);
    }
  }

  /** append's path for an rhs that is not rooted: an optional separator, then rhs. */
  method AppendRelative(out: StrImpl, rhs: seq<char>) returns (ok: bool)
    requires IsCString(rhs) && out.Valid() && !IsRooted(rhs)
    modifies out, out.data
    ensures out.Valid()
    ensures out.Contents() == AppendResult(old(out.Contents()), rhs, out.Size())
    ensures ok <==> rhs == [] || |out.Contents()| == |Joined(old(out.Contents()), rhs)|
  {
    var addSep := SeparatorNeeded(out);
    if addSep && !IsSep(Ch(rhs, 0)) {
      ok := AppendAfterSeparator(out, rhs);
    } else {
      ghost var lhs, size0, g := out.Contents(), out.Size(), out.growable;
      ok := out.Concat(rhs);
      ConcatTwice(lhs, [], rhs, lhs, out.Contents(), g, size0, size0, out.Size(), false, ok);
    }
  }

  /** append when a separator goes between: concat the separator, then rhs. */
  method AppendAfterSeparator(out: StrImpl, rhs: seq<char>) returns (ok: bool)
    requires IsCString(rhs) && out.Valid() && !IsRooted(rhs)
    requires NeedsSeparator(out.Contents()) && !IsSep(Ch(rhs, 0))
    modifies out, out.data
    ensures out.Valid()
    ensures out.Contents() == AppendResult(old(out.Contents()), rhs, out.Size())
    ensures ok <==> rhs == [] || |out.Contents()| == |Joined(old(out.Contents()), rhs)|
  {
    ghost var lhs, size0, g := out.Contents(), out.Size(), out.growable;
    var sepOk := out.Concat([PathSep]);
    ghost var mid, size1 := out.Contents(), out.Size();
    ok := out.Concat(rhs);
    ghost var fin, size2 := out.Contents(), out.Size();
    ConcatTwice(lhs, [PathSep], rhs, mid, fin, g, size0, size1, size2, sepOk, ok);
    assert lhs == old(out.Contents());
  }

  /** The separator test of append on out's current text. */
  method SeparatorNeeded(out: StrImpl) returns (addSep: bool)
    requires out.Valid()
    ensures addSep == NeedsSeparator(out.Contents())
  {
    var n := out.Length();
    if n > 0 {
      var last := out.At(n - 1);
      var c0 := out.At(0);
      var c1 := out.At(1);
      var c2 := out.At(2);
      addSep := !IsSep(last) && !(IsAlpha(c0) && c1 == ':' && c2 == '\0');
    } else {
      addSep := false;
    }
  }

  /**
   * Two bounded appends in a row, the optional separator and then rhs,
   * store a prefix of the joined path: a separator append that was cut
   * leaves no room for rhs.  The requires restate what concat promises
   * each time.
   */
  lemma ConcatTwice(lhs: seq<char>, a: seq<char>, b: seq<char>, mid: seq<char>, fin: seq<char>,
                    g: bool, s0: nat, s1: nat, s2: nat, okA: bool, okB: bool)
    requires |a| <= 1 && |lhs| < s0 < SizeLimit
    requires a == [] ==> mid == lhs && s1 == s0
    requires a != [] ==> (s1 == Grown(s0, g, |lhs| + |a| + 1) &&
      mid == lhs + a[..Min(|a|, s1 - 1 - |lhs|)] && (okA <==> |mid| == |lhs| + |a|))
    requires s2 == Grown(s1, g, |mid| + |b| + 1)
    requires fin == mid + b[..Min(|b|, s2 - 1 - |mid|)] && (okB <==> |fin| == |mid| + |b|)
    requires !IsRooted(b) && a == (if NeedsSeparator(lhs) && !IsSep(Ch(b, 0)) then [PathSep] else [])
    ensures fin == AppendResult(lhs, b, s2)
    ensures okB <==> b == [] || |fin| == |Joined(lhs, b)|
  {
    assert Joined(lhs, b) == lhs + a + b;
    if a == [] {
      assert mid == lhs + a;
    } else if |mid| == |lhs| + |a| {
      assert mid == lhs + a;
    } else {
      assert mid == lhs && |a| == 1 && s1 == |lhs| + 1;
      if b != [] {
        RoundUpMonotonic(|lhs| + 2, |lhs| + |b| + 1);
        assert s2 == s1;
      }
    }
  }

  /** What `out << lhs` leaves in a buffer holding text: as much of lhs as
    * fits once reserve has grown the buffer where it may. */
  function Concatenated(text: seq<char>, lhs: seq<char>, size: nat, growable: bool): (r: seq<char>)
    requires |text| < size
    ensures text <= r && |r| <= |text| + |lhs|
    ensures |text| + |lhs| < Grown(size, growable, |text| + |lhs| + 1) ==> r == text + lhs
  {
    text + lhs[..Min(|lhs|, Grown(size, growable, |text| + |lhs| + 1) - 1 - |text|)]
  }

  /** join(lhs, rhs, out): appends lhs (growing out when it may), then
    * appends path rhs to what was stored. */
  method Join(lhs: seq<char>, rhs: seq<char>, out: StrImpl) returns (ok: bool)
    requires IsCString(lhs) && IsCString(rhs) && out.Valid()
    modifies out, out.data
    ensures out.Valid()
    ensures var mid := Concatenated(old(out.Contents()), lhs, old(out.Size()), old(out.growable));
      out.Contents() == AppendResult(mid, rhs, out.Size()) &&
      (ok <==> rhs == [] || |out.Contents()| == |Joined(mid, rhs)|)
  {
    ghost var mid := Concatenated(out.Contents(), lhs, out.Size(), out.growable);
    var _ := out.Concat(lhs);
    assert out.Contents() == mid;
    ok := Append(out, rhs);
  }

  /** Where the removable part begins: after "x:" or "\\", and after one separator there. */
  function RootStart(s: seq<char>): (r: nat)
    ensures r <= |s|
  {
    var a := if (IsAlpha(Ch(s, 0)) && Ch(s, 1) == ':') || (Ch(s, 0) == '\\' && Ch(s, 1) == '\\') then 2 else 0;
    if IsSep(Ch(s, a)) then a + 1 else a
  }

  /** Backs over separators from hi, not below lo. */
  function TrimSeparators(s: seq<char>, lo: nat, hi: nat): (r: nat)
    requires lo <= hi <= |s|
    ensures lo <= r <= hi && (r == lo || !IsSep(s[r - 1]))
    decreases hi
  {
    if hi > lo && IsSep(s[hi - 1]) then TrimSeparators(s, lo, hi - 1) else hi
  }

  /** What TrimSeparators backs over is all separators. */
  lemma {:induction false} TrimSeparatorsSpan(s: seq<char>, lo: nat, hi: nat)
    requires lo <= hi <= |s|
    ensures forall k :: TrimSeparators(s, lo, hi) <= k < hi ==> IsSep(s[k])
    decreases hi
  {
    if hi > lo && IsSep(s[hi - 1]) { TrimSeparatorsSpan(s, lo, hi - 1); }
  }

  /** Backs over the characters of a component from hi, not below lo. */
  function TrimName(s: seq<char>, lo: nat, hi: nat): (r: nat)
    requires lo <= hi <= |s|
    ensures lo <= r <= hi && (r == lo || IsSep(s[r - 1]))
    decreases hi
  {
    if hi > lo && !IsSep(s[hi - 1]) then TrimName(s, lo, hi - 1) else hi
  }

  /** What TrimName backs over holds no separator. */
  lemma {:induction false} TrimNameSpan(s: seq<char>, lo: nat, hi: nat)
    requires lo <= hi <= |s|
    ensures forall k :: TrimName(s, lo, hi) <= k < hi ==> !IsSep(s[k])
    decreases hi
  {
    if hi > lo && !IsSep(s[hi - 1]) { TrimNameSpan(s, lo, hi - 1); }
  }

  /** maybe_strip_last_separator: the length left after trailing separators go. */
  function StrippedLength(s: seq<char>): (r: nat)
    ensures RootStart(s) <= r <= |s|
  {
    TrimSeparators(s, RootStart(s), |s|)
  }

  /** Stripping keeps the root, leaves no trailing separator after it, and is idempotent. */
  lemma StripKeepsRoot(s: seq<char>)
    ensures var t := s[..StrippedLength(s)];
      t == s[..RootStart(s)] + s[RootStart(s)..StrippedLength(s)] &&
      (|t| > RootStart(s) ==> !IsSep(t[|t| - 1])) &&
      AllSeparators(s[StrippedLength(s)..]) &&
      RootStart(t) == RootStart(s) && StrippedLength(t) == |t|
  {
    var t := s[..StrippedLength(s)];
    var r := RootStart(s);
    TrimSeparatorsSpan(s, r, |s|);
    assert forall i :: 0 <= i < |s[StrippedLength(s)..]| ==> s[StrippedLength(s)..][i] == s[StrippedLength(s) + i];
    assert forall i :: 0 <= i < r ==> Ch(t, i) == Ch(s, i);
    if |t| == r {
      assert Ch(t, r) == '\0';
      if r > 0 { assert |t| >= 1; }
    } else {
      assert Ch(t, r) == Ch(s, r);
    }
    assert RootStart(t) == r;
  }

  /** The start computation shared by maybe_strip_last_separator and to_parent. */
  method RootStartOf(out: StrImpl) returns (start: nat)
    requires out.Valid()
    ensures start == RootStart(out.Contents())
  {
    start := 0;
    var c0 := out.At(0);
    var c1 := out.At(1);
    if IsAlpha(c0) && c1 == ':' {
      start := start + 2;
    } else if c0 == '\\' && c1 == '\\' {
      start := start + 2;
    }
    var c := out.At(start);
    if IsSep(c) {
      start := start + 1;
    }
  }

  /** maybe_strip_last_separator(out): drops a trailing run of separators after the root. */
  method MaybeStripLastSeparator(out: StrImpl)
    requires out.Valid()
    modifies out, out.data
    ensures out.Valid() && out.data == old(out.data)
    ensures out.Contents() == old(out.Contents())[..StrippedLength(old(out.Contents()))]
  {
    ghost var s := out.Contents();
    var start := RootStartOf(out);
    var n := out.Length();
    while n > start
      invariant out.Valid() && out.data == old(out.data)
      invariant start <= n <= |s| && out.Contents() == s[..n]
      invariant TrimSeparators(s, start, n) == StrippedLength(s)
      decreases n
    {
      var last := out.At(n - 1);
      assert last == s[n - 1];
      if !IsSep(last) {
        break;
      }
      assert TrimSeparators(s, start, n - 1) == StrippedLength(s);
      assert s[..n][..n - 1] == s[..n - 1];
      out.Truncate(n - 1);
      n := n - 1;
    }
  }

  // ---- to_parent ---------------------------------------------------------

  /** to_parent's three cut points: parent end, child start and child end. */
  datatype Split = Split(parentEnd: nat, childStart: nat, childEnd: nat)

  function ParentSplit(s: seq<char>): (sp: Split)
    ensures RootStart(s) <= sp.parentEnd <= sp.childStart <= sp.childEnd <= |s|
  {
    var start := RootStart(s);
    var childEnd := TrimSeparators(s, start, |s|);
    var childStart := TrimName(s, start, childEnd);
    Split(TrimSeparators(s, start, childStart), childStart, childEnd)
  }

  /**
   * The cuts partition the text after the root: the parent (not ending in a
   * separator), separators, the last component, trailing separators.
   */
  lemma ParentSplitParts(s: seq<char>)
    ensures var sp := ParentSplit(s);
      && (forall k :: sp.childEnd <= k < |s| ==> IsSep(s[k]))
      && (forall k :: sp.childStart <= k < sp.childEnd ==> !IsSep(s[k]))
      && (forall k :: sp.parentEnd <= k < sp.childStart ==> IsSep(s[k]))
      && (sp.parentEnd == RootStart(s) || !IsSep(s[sp.parentEnd - 1]))
  {
    var start := RootStart(s);
    var sp := ParentSplit(s);
    TrimSeparatorsSpan(s, start, |s|);
    TrimNameSpan(s, start, sp.childEnd);
    TrimSeparatorsSpan(s, start, sp.childStart);
  }

  /** The removed component as a buffer with room for `room` characters receives it. */
  function ChildText(s: seq<char>, room: nat): seq<char>
  {
    var sp := ParentSplit(s);
    s[sp.childStart..sp.childStart + Min(sp.childEnd - sp.childStart, room)]
  }

  /**
   * to_parent(out, child): strips the last component and the separators
   * around it, keeping the root; child, when given, receives the component.
   * The result says whether out changed.
   */
  method ToParent(out: StrImpl, child: StrImpl?) returns (changed: bool)
    requires out.Valid()
    requires child != null ==> child.Valid() && child != out && child.data != out.data
    modifies out, out.data, if child == null then {} else {child, child.data}
    ensures out.Valid()
    ensures out.Contents() == old(out.Contents())[..ParentSplit(old(out.Contents())).parentEnd]
    ensures changed <==> out.Contents() != old(out.Contents())
    ensures child != null ==> child.Valid()
    ensures child != null ==> child.Contents() == ChildText(old(out.Contents()), child.Size() - 1)
  {
    if child == null {
      var sp := ParentCuts(out);
      changed := CutAt(out, sp.parentEnd);
    } else {
      changed := ToParentTaking(out, child);
    }
  }

  /** to_parent with a child buffer: the component goes to child before out is cut. */
  method ToParentTaking(out: StrImpl, child: StrImpl) returns (changed: bool)
    requires out.Valid() && child.Valid() && child != out && child.data != out.data
    modifies out, out.data, child, child.data
    ensures out.Valid() && child.Valid()
    ensures out.Contents() == old(out.Contents())[..ParentSplit(old(out.Contents())).parentEnd]
    ensures changed <==> out.Contents() != old(out.Contents())
    ensures child.Contents() == ChildText(old(out.Contents()), child.Size() - 1)
  {
    ghost var s := out.Contents();
    var sp := ParentCuts(out);
    TakeChild(out, child, sp.childStart, sp.childEnd);
    ghost var got, room := child.Contents(), child.Size() - 1;
    ChildTextAt(s, sp, room);
    changed := CutAt(out, sp.parentEnd);
    assert child.Contents() == got && child.Size() - 1 == room;
  }

  /** out.truncate(end), reporting whether the length changed. */
  method CutAt(out: StrImpl, end: nat) returns (changed: bool)
    requires out.Valid() && end <= |out.Contents()|
    modifies out, out.data
    ensures out.Valid() && out.data == old(out.data)
    ensures out.Contents() == old(out.Contents())[..end]
    ensures changed <==> out.Contents() != old(out.Contents())
  {
    ghost var s := out.Contents();
    var origLen := out.Length();
    out.Truncate(end);
    var newLen := out.Length();
    changed := newLen != origLen;
    assert changed <==> out.Contents() != s by {
      if !changed { assert s[..|s|] == s; }
    }
  }

  /** to_parent's scans: root start, then back over separators, the component and separators. */
  method ParentCuts(out: StrImpl) returns (sp: Split)
    requires out.Valid()
    ensures sp == ParentSplit(out.Contents())
  {
    var start := RootStartOf(out);
    var end := out.Length();
    end := BackOver(out, start, end, true);
    var childEnd := end;
    end := BackOver(out, start, end, false);
    var childStart := end;
    end := BackOver(out, start, end, true);
    sp := Split(end, childStart, childEnd);
  }

  /** child->clear() then child->concat(out.c_str() + from, to - from). */
  method TakeChild(out: StrImpl, child: StrImpl, from: nat, to: nat)
    requires out.Valid() && child.Valid() && child != out && child.data != out.data
    requires from <= to <= |out.Contents()|
    modifies child, child.data
    ensures child.Valid() && child.data != out.data
    ensures child.Contents() == out.Contents()[from..][..Min(to - from, child.Size() - 1)]
  {
    child.Clear();
    var tail := out.From(from);
    var _ := child.ConcatN(Some(tail), to - from);
  }

  lemma ChildTextAt(s: seq<char>, sp: Split, room: nat)
    requires sp == ParentSplit(s)
    ensures ChildText(s, room) == s[sp.childStart..][..Min(sp.childEnd - sp.childStart, room)]
  {
  }

  /** Backs over separators (or over component characters) of out's text from hi. */
  method BackOver(out: StrImpl, lo: nat, hi: nat, separators: bool) returns (r: nat)
    requires out.Valid() && lo <= hi <= |out.Contents()|
    ensures r == if separators then TrimSeparators(out.Contents(), lo, hi) else TrimName(out.Contents(), lo, hi)
  {
    r := hi;
    while r > lo
      invariant lo <= r <= hi
      invariant (if separators then TrimSeparators(out.Contents(), lo, r) else TrimName(out.Contents(), lo, r)) ==
                (if separators then TrimSeparators(out.Contents(), lo, hi) else TrimName(out.Contents(), lo, hi))
      decreases r
    {
      var c := out.At(r - 1);
      if IsSep(c) != separators {
        break;
      }
      r := r - 1;
    }
  }

  /** to_parent undoes append of a plain name: the parent is lhs again and the child is the name. */
  lemma ParentOfJoined(lhs: seq<char>, name: seq<char>)
    requires NeedsSeparator(lhs)
    requires |name| > 0 && forall i :: 0 <= i < |name| ==> !IsSep(name[i])
    requires !HasDrivePrefix(name)
    ensures var j := Joined(lhs, name);
      ParentSplit(j) == Split(|lhs|, |lhs| + 1, |j|) && j[..|lhs|] == lhs && j[|lhs| + 1..] == name
  {
    var j := Joined(lhs, name);
    assert !IsSep(name[0]);
    assert !IsRooted(name);
    assert j == lhs + [PathSep] + name;
    var n := |lhs|;
    assert j[n] == PathSep;
    assert RootStart(j) <= n by {
      if n == 1 {
        assert j[1] == PathSep;
      } else if n == 2 {
        assert j[0] == lhs[0] && j[1] == lhs[1];
      }
    }
    var start := RootStart(j);
    assert forall i :: n < i < |j| ==> j[i] == name[i - n - 1];
    assert TrimSeparators(j, start, |j|) == |j|;
    assert TrimName(j, start, |j|) == n + 1 by {
      var t := TrimName(j, start, |j|);
      TrimNameSpan(j, start, |j|);
      assert IsSep(j[n]);
    }
    assert j[n - 1] == lhs[n - 1];
    assert TrimSeparators(j, start, n + 1) == n;
    assert j[..n] == lhs;
    assert j[n + 1..] == name;
  }
}
