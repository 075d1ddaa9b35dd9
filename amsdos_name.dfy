/**
 * AMSDOS 8.3 names (src/amsdos.c:66-117, :160-174): the last path segment
 * of a host file name, split at its first dot into an 8-character name
 * field and a 3-character extension field, upper-cased and space-padded;
 * and the name and extension as stored in a directory entry.
 */
module AmsdosName {
  import opened Common
  import opened DskLayout

  const SLASH: byte := 0x2F
  const DOT: byte := 0x2E
  const SPACE: byte := 0x20

  /** The characters of a C string, without its terminating NUL. */
  type CString = s: seq<byte> | forall i :: 0 <= i < |s| ==> s[i] != 0

  /** `strstr` with a one-character needle: the first position at or after `from` holding c. */
  function FindByte(s: seq<byte>, c: byte, from: nat): Option<nat>
    decreases |s| - from
  {
    if from >= |s| then None
    else if s[from] == c then Some(from)
    else FindByte(s, c, from + 1)
  }

  lemma {:induction false} FindByteIsFirst(s: seq<byte>, c: byte, from: nat)
    ensures var r := FindByte(s, c, from);
      r.Some? ==> from <= r.value < |s| && s[r.value] == c &&
                  forall k :: from <= k < r.value ==> s[k] != c
    ensures FindByte(s, c, from).None? <==> forall k :: from <= k < |s| ==> s[k] != c
    decreases |s| - from
  {
    if from < |s| && s[from] != c {
      FindByteIsFirst(s, c, from + 1);
    }
  }

  // ---------------------------------------------------------------------
  // get_basename

  /** Where the last '/'-separated segment of s[..n] starts. */
  function SegmentStart(s: seq<byte>, n: nat): (r: nat)
    requires n <= |s|
    ensures r <= n
  {
    if n == 0 then 0
    else if s[n - 1] == SLASH then n
    else SegmentStart(s, n - 1)
  }

  /** The part of a path after its last '/', or the whole path when it has none. */
  function Basename(s: seq<byte>): seq<byte>
  {
    s[SegmentStart(s, |s|)..]
  }

  /** The segment start is just after a '/' (or at 0), and no '/' follows it within s[..n]. */
  lemma {:induction false} SegmentStartIsAfterLastSlash(s: seq<byte>, n: nat)
    requires n <= |s|
    ensures var r := SegmentStart(s, n);
      (r == 0 || s[r - 1] == SLASH) && forall k :: r <= k < n ==> s[k] != SLASH
  {
    if n > 0 && s[n - 1] != SLASH {
      SegmentStartIsAfterLastSlash(s, n - 1);
    }
  }

  /** A stretch without '/' does not move the segment start. */
  lemma {:induction false} SegmentStartSkips(s: seq<byte>, a: nat, b: nat)
    requires a <= b <= |s|
    requires forall k :: a <= k < b ==> s[k] != SLASH
    ensures SegmentStart(s, b) == SegmentStart(s, a)
  {
    if a < b {
      SegmentStartSkips(s, a, b - 1);
    }
  }

  /** The base name is a suffix of the path that holds no '/' and follows the last one. */
  lemma BasenameIsLastSegment(s: seq<byte>)
    ensures var b := Basename(s);
      |b| <= |s| && b == s[|s| - |b|..] &&
      (forall k :: 0 <= k < |b| ==> b[k] != SLASH) &&
      (|b| == |s| || s[|s| - |b| - 1] == SLASH)
  {
    SegmentStartIsAfterLastSlash(s, |s|);
  }

  /**
   * get_basename: repeatedly searches for the next '/' and moves past it;
   * returns the position where the base name starts.
   */
  method GetBasename(name: seq<byte>) returns (start: nat)
    ensures start <= |name| && name[start..] == Basename(name)
  {
    start := 0;
    var from := 0;
    var searching := true;
    while searching
      invariant from <= |name|
      invariant start == SegmentStart(name, from)
      invariant !searching ==> start == SegmentStart(name, |name|)
      decreases |name| - from, searching
    {
      var slash := FindByte(name, SLASH, from);
      FindByteIsFirst(name, SLASH, from);
      if slash.Some? {
        SegmentStartSkips(name, from, slash.value);
        from := slash.value + 1;
        start := from;
      } else {
        SegmentStartSkips(name, from, |name|);
        searching := false;
      }
    }
  }

  // ---------------------------------------------------------------------
  // get_amsdos_filename and get_amsdos_extension

  /** How many characters of the base name go into the name field: those before the first dot, at most 8. */
  function NameLength(b: seq<byte>): (n: nat)
    ensures n <= AMSDOS_NAME_LEN && n <= |b|
  {
    match FindByte(b, DOT, 0)
    case Some(k) => FindByteIsFirst(b, DOT, 0); Min(k, AMSDOS_NAME_LEN)
    case None => Min(|b|, AMSDOS_NAME_LEN)
  }

  /** The 8-byte AMSDOS name field of a host file name. */
  function NameField(name: seq<byte>): (r: seq<byte>)
    ensures |r| == AMSDOS_NAME_LEN && NoLowerCase(r)
  {
    var b := Basename(name);
    var len := NameLength(b);
    seq(AMSDOS_NAME_LEN, i requires 0 <= i < AMSDOS_NAME_LEN => if i < len then ToUpper(b[i]) else SPACE)
  }

  /** The characters after the first dot of the base name (empty when there is no dot). */
  function AfterDot(b: seq<byte>): seq<byte>
  {
    match FindByte(b, DOT, 0)
    case Some(k) => FindByteIsFirst(b, DOT, 0); b[k + 1..]
    case None => []
  }

  /** The 3-byte AMSDOS extension field of a host file name. */
  function ExtField(name: seq<byte>): (r: seq<byte>)
    ensures |r| == AMSDOS_EXT_LEN && NoLowerCase(r)
  {
    var e := AfterDot(Basename(name));
    seq(AMSDOS_EXT_LEN, i requires 0 <= i < AMSDOS_EXT_LEN => if i < |e| then ToUpper(e[i]) else SPACE)
  }

  /** get_amsdos_filename: the name field, filled one character at a time. */
  method GetAmsdosFilename(name: seq<byte>) returns (buffer: seq<byte>)
    ensures buffer == NameField(name)
  {
    var start := GetBasename(name);
    var b := name[start..];
    var separator := FindByte(b, DOT, 0);
    FindByteIsFirst(b, DOT, 0);
    var len := if separator.Some? then Min(separator.value, AMSDOS_NAME_LEN) else Min(|b|, AMSDOS_NAME_LEN);
    assert len == NameLength(b);
    buffer := [];
    for i := 0 to AMSDOS_NAME_LEN
      invariant |buffer| == i
      invariant forall k :: 0 <= k < i ==> buffer[k] == NameField(name)[k]
    {
      buffer := buffer + [if i < len then ToUpper(b[i]) else SPACE];
    }
  }

  /** get_amsdos_extension: the extension field, filled one character at a time. */
  method GetAmsdosExtension(name: seq<byte>) returns (buffer: seq<byte>)
    ensures buffer == ExtField(name)
  {
    var start := GetBasename(name);
    var b := name[start..];
    var separator := FindByte(b, DOT, 0);
    FindByteIsFirst(b, DOT, 0);
    var rest: seq<byte> := if separator.Some? then b[separator.value + 1..] else [];
    assert rest == AfterDot(b);
    buffer := [];
    for i := 0 to AMSDOS_EXT_LEN
      invariant |buffer| == i
      invariant forall k :: 0 <= k < i ==> buffer[k] == ExtField(name)[k]
    {
      buffer := buffer + [if i < |rest| then ToUpper(rest[i]) else SPACE];
    }
  }

  /** A string of n spaces. */
  function Spaces(n: nat): (r: seq<byte>)
    ensures |r| == n && forall i :: 0 <= i < n ==> r[i] == SPACE
  {
    seq(n, _ => SPACE)
  }

  /** The name field holds neither dot nor slash, and the extension field no slash. */
  lemma FieldsShape(name: seq<byte>)
    ensures forall i :: 0 <= i < AMSDOS_NAME_LEN ==> NameField(name)[i] != DOT && NameField(name)[i] != SLASH
    ensures forall i :: 0 <= i < AMSDOS_EXT_LEN ==> ExtField(name)[i] != SLASH
  {
    var b := Basename(name);
    BasenameIsLastSegment(name);
    FindByteIsFirst(b, DOT, 0);
    var len := NameLength(b);
    assert forall i :: 0 <= i < len ==> b[i] != DOT && b[i] != SLASH;
    var e := AfterDot(b);
    assert forall i :: 0 <= i < |e| ==> e[i] != SLASH;
  }

  /** Fields of a C string contain no NUL, so `strncmp` on them compares all their bytes. */
  lemma FieldsHaveNoNul(name: CString)
    ensures forall i :: 0 <= i < AMSDOS_NAME_LEN ==> NameField(name)[i] != 0
    ensures forall i :: 0 <= i < AMSDOS_EXT_LEN ==> ExtField(name)[i] != 0
  {
    var b := Basename(name);
    assert forall k :: 0 <= k < |b| ==> b[k] == name[SegmentStart(name, |name|) + k];
    FindByteIsFirst(b, DOT, 0);
  }

  /** A name already in 8.3 form: the stored name, a dot and the stored extension. */
  function Normalised(name: seq<byte>): seq<byte>
  {
    NameField(name) + [DOT] + ExtField(name)
  }

  /** Normalising a normalised name changes nothing. */
  lemma NormaliseIdempotent(name: seq<byte>)
    ensures NameField(Normalised(name)) == NameField(name)
    ensures ExtField(Normalised(name)) == ExtField(name)
  {
    var n := NameField(name);
    var e := ExtField(name);
    var s := Normalised(name);
    FieldsShape(name);
    assert forall k :: 0 <= k < |s| ==> s[k] != SLASH;
    SegmentStartSkips(s, 0, |s|);
    assert Basename(s) == s;
    FindByteIsFirst(s, DOT, 0);
    assert s[AMSDOS_NAME_LEN] == DOT;
    assert forall j :: 0 <= j < AMSDOS_NAME_LEN ==> s[j] == n[j];
    assert FindByte(s, DOT, 0) == Some(AMSDOS_NAME_LEN);
    assert AfterDot(s) == e;
    assert forall i :: 0 <= i < AMSDOS_NAME_LEN ==> ToUpper(n[i]) == n[i];
    assert forall i :: 0 <= i < AMSDOS_EXT_LEN ==> ToUpper(e[i]) == e[i];
  }

  /**
   * An upper-case name of at most 8 characters and extension of at most 3,
   * neither holding '/', the name holding no '.', give back exactly those
   * characters, space-padded.
   */
  lemma EightThreeNameKept(n: seq<byte>, e: seq<byte>)
    requires |n| <= AMSDOS_NAME_LEN && |e| <= AMSDOS_EXT_LEN
    requires NoLowerCase(n) && NoLowerCase(e)
    requires forall i :: 0 <= i < |n| ==> n[i] != DOT && n[i] != SLASH
    requires forall i :: 0 <= i < |e| ==> e[i] != SLASH
    ensures NameField(n + [DOT] + e) == n + Spaces(AMSDOS_NAME_LEN - |n|)
    ensures ExtField(n + [DOT] + e) == e + Spaces(AMSDOS_EXT_LEN - |e|)
  {
    var s := n + [DOT] + e;
    assert forall k :: 0 <= k < |s| ==> s[k] != SLASH;
    SegmentStartSkips(s, 0, |s|);
    assert Basename(s) == s;
    FindByteIsFirst(s, DOT, 0);
    assert s[|n|] == DOT;
    assert forall j :: 0 <= j < |n| ==> s[j] == n[j];
    assert FindByte(s, DOT, 0) == Some(|n|);
    assert AfterDot(s) == e;
  }

  /** A name without a dot has an all-space extension field. */
  lemma NoDotNoExtension(name: seq<byte>)
    requires forall i :: 0 <= i < |name| ==> name[i] != DOT
    ensures ExtField(name) == Spaces(AMSDOS_EXT_LEN)
  {
    var b := Basename(name);
    assert forall k :: 0 <= k < |b| ==> b[k] == name[SegmentStart(name, |name|) + k];
    FindByteIsFirst(b, DOT, 0);
  }

  // ---------------------------------------------------------------------
  // Names as stored in a directory entry.

  /** amsdos_get_dir_extension: the stored extension with bit 7 of its first two bytes cleared. */
  function DirExtension(e: DirEntry): (r: seq<byte>)
    requires e.WellSized()
    ensures |r| == AMSDOS_EXT_LEN
  {
    [e.extension[0] % 128, e.extension[1] % 128, e.extension[2]]
  }

  /** Clearing bit 7 with `& 0x7F` is taking the value modulo 128. */
  lemma ClearBit7(b: bv8)
    ensures b & 0x7F == b % 128
  {
  }

  /** `strncmp(a, b, n) == 0`: equal up to n characters or up to a common NUL. */
  function StrnEq(a: seq<byte>, b: seq<byte>, n: nat): bool
    requires n <= |a| && n <= |b|
  {
    if n == 0 then true
    else if a[0] != b[0] then false
    else if a[0] == 0 then true
    else StrnEq(a[1..], b[1..], n - 1)
  }

  /** Against a string with no NUL in its first n bytes, strncmp is equality of those bytes. */
  lemma {:induction false} StrnEqWithoutNul(a: seq<byte>, b: seq<byte>, n: nat)
    requires n <= |a| && n <= |b|
    requires forall i :: 0 <= i < n ==> a[i] != 0
    ensures StrnEq(a, b, n) <==> a[..n] == b[..n]
  {
    if n > 0 && a[0] == b[0] {
      StrnEqWithoutNul(a[1..], b[1..], n - 1);
      assert a[..n] == [a[0]] + a[1..][..n - 1];
      assert b[..n] == [b[0]] + b[1..][..n - 1];
    }
  }

  /** The comparison get_dir_entry_for_file makes for one entry. */
  predicate NameMatches(name: seq<byte>, user: byte, e: DirEntry)
    requires e.WellSized()
  {
    StrnEq(NameField(name), e.name, AMSDOS_NAME_LEN) &&
    StrnEq(ExtField(name), DirExtension(e), AMSDOS_EXT_LEN) &&
    e.user == user
  }

  /** For a C-string name the comparison is plain equality of the fields. */
  lemma NameMatchesIsEquality(name: CString, user: byte, e: DirEntry)
    requires e.WellSized()
    ensures NameMatches(name, user, e) <==>
      NameField(name) == e.name && ExtField(name) == DirExtension(e) && e.user == user
  {
    FieldsHaveNoNul(name);
    StrnEqWithoutNul(NameField(name), e.name, AMSDOS_NAME_LEN);
    StrnEqWithoutNul(ExtField(name), DirExtension(e), AMSDOS_EXT_LEN);
    assert NameField(name)[..AMSDOS_NAME_LEN] == NameField(name);
    assert e.name[..AMSDOS_NAME_LEN] == e.name;
    assert ExtField(name)[..AMSDOS_EXT_LEN] == ExtField(name);
    assert DirExtension(e)[..AMSDOS_EXT_LEN] == DirExtension(e);
  }
}
