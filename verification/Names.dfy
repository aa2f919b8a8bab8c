/** Names in their fixed-width, NUL-terminated fields. */
module Names {
  import opened Disk

  /** The name a field holds: its bytes up to the first NUL. */
  function NameOf(field: seq<byte>): (s: seq<byte>)
    ensures |s| <= |field|
  {
    if field == [] || field[0] == 0 then [] else [field[0]] + NameOf(field[1..])
  }

  /** Matching a field byte by byte is comparing the name it holds. */
  lemma {:induction false} NameIsOf(field: seq<byte>, s: seq<byte>)
    requires 0 !in s
    ensures NameIs(field, s) <==> NameOf(field) == s
  {
    if s == [] {
    } else if field == [] || field[0] != s[0] {
      assert !NameIs(field, s);
    } else {
      NameIsOf(field[1..], s[1..]);
      assert s == [s[0]] + s[1..];
      assert s <= field <==> s[1..] <= field[1..];
    }
  }

  /** The name a field holds is what stands before its first NUL, or all of it. */
  lemma {:induction false} NameOfMeans(field: seq<byte>)
    ensures
      var s := NameOf(field);
      |s| <= |field| && s == field[..|s|] && 0 !in s && (|s| == |field| || field[|s|] == 0)
  {
    if field != [] && field[0] != 0 {
      NameOfMeans(field[1..]);
    }
  }

  /** The loop that matches a name against a field. */
  method HasName(b: seq<byte>, s: seq<byte>) returns (r: bool)
    ensures r <==> NameIs(b, s)
    ensures r <==> |s| <= |b| && b[..|s|] == s && (|s| == |b| || b[|s|] == 0)
  {
    if |b| < |s| {
      return false;
    }
    for i := 0 to |s|
      invariant b[..i] == s[..i]
    {
      if b[i] != s[i] {
        assert b[..|s|][i] != s[i];
        return false;
      }
    }
    assert b[..|s|] == s;
    if |s| == |b| {
      return true;
    }
    return b[|s|] == 0;
  }

  /** What `ENTER` leaves in a field: the path, cut to the field, and a NUL if it is shorter. */
  function Named(field: NameField, path: seq<byte>): (f: NameField)
  {
    var n := if |path| < NAME_MAX then |path| else NAME_MAX;
    path[..n] + if n < NAME_MAX then [0] + field[n + 1..] else []
  }

  /** Storing a path into a name field: first the NUL, then the bytes. */
  method SetName(field: NameField, path: seq<byte>) returns (f: NameField)
    ensures f == Named(field, path)
    ensures |path| < 60 ==> f[..|path|] == path && f[|path|] == 0 && f[|path| + 1..] == field[|path| + 1..]
    ensures |path| >= 60 ==> f == path[..60]
  {
    f := field;
    if |path| < NAME_MAX {
      f := f[|path| := 0];
    }
    ghost var f0 := f;
    var i := 0;
    while i < NAME_MAX && i < |path|
      invariant i <= NAME_MAX && i <= |path|
      invariant forall j | 0 <= j < i :: f[j] == path[j]
      invariant forall j | i <= j < NAME_MAX :: f[j] == f0[j]
    {
      f := f[i := path[i]];
      i := i + 1;
    }
    assert f == path[..i] + f0[i..];
  }

  /** A stored path is found again under its own name exactly if it fits the field. */
  lemma NamedFound(field: NameField, path: seq<byte>)
    ensures NameIs(Named(field, path), path) <==> |path| <= NAME_MAX
  {
  }

  /** Without NULs, the name stored is the path, cut to the field. */
  lemma NamedHolds(field: NameField, path: seq<byte>)
    requires 0 !in path
    ensures NameOf(Named(field, path)) == path[..if |path| < NAME_MAX then |path| else NAME_MAX]
  {
    var n := if |path| < NAME_MAX then |path| else NAME_MAX;
    assert 0 !in path[..n];
    NameIsOf(Named(field, path), path[..n]);
  }
}
