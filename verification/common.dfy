/** Shared vocabulary of the admin controllers: optional values, request
    inputs as the framework's validator sees them, and the PHP string
    primitives (`trim`, `empty`, truthiness) the controllers branch on. */
module Common {

  datatype Option<+T> = None | Some(value: T) {
    function GetOr(default: T): T {
      match this
      case Some(v) => v
      case None => default
    }
  }

  datatype Result<+R, +E> = Success(value: R) | Failure(error: E)

  /** One request parameter: missing from the request, present with the
      value null, or present with a value. `isset` and `??` see only
      `Given`; `array_key_exists`, `sometimes` and `required` tell
      `Absent` from `Null`. */
  datatype Input<+T> = Absent | Null | Given(value: T) {
    /** PHP `$x ?? default`. */
    function OrElse(default: T): T {
      if Given? then value else default
    }
    /** The value as nullable (PHP `$x ?? null`). */
    function ToOption(): Option<T> {
      if Given? then Some(value) else None
    }
  }

  /** The characters PHP's `trim` strips by default: space, tab, newline,
      carriage return, NUL and vertical tab. */
  predicate IsTrimmable(c: char) {
    c == ' ' || c == '\t' || c == '\n' || c == '\r' || c == '\0' || c == '\U{000B}'
  }

  function TrimStart(s: string): (r: string)
    ensures |r| <= |s| && r == s[|s| - |r|..]
    ensures r == [] || !IsTrimmable(r[0])
    ensures forall i :: 0 <= i < |s| - |r| ==> IsTrimmable(s[i])
  {
    if s != [] && IsTrimmable(s[0]) then TrimStart(s[1..]) else s
  }

  function TrimEnd(s: string): (r: string)
    ensures |r| <= |s| && r == s[..|r|]
    ensures r == [] || !IsTrimmable(r[|r| - 1])
    ensures forall i :: |r| <= i < |s| ==> IsTrimmable(s[i])
  {
    if s != [] && IsTrimmable(s[|s| - 1]) then TrimEnd(s[..|s| - 1]) else s
  }

  /** PHP `trim($s)`: the slice of `s` left after stripping trimmable
      characters from both ends. */
  function Trim(s: string): (r: string)
    ensures exists i, j ::
              && 0 <= i <= j <= |s| && r == s[i..j]
              && (forall k :: 0 <= k < i ==> IsTrimmable(s[k]))
              && (forall k :: j <= k < |s| ==> IsTrimmable(s[k]))
    ensures r == [] || (!IsTrimmable(r[0]) && !IsTrimmable(r[|r| - 1]))
  {
    var t := TrimStart(s);
    var r := TrimEnd(t);
    var i := |s| - |t|;
    assert r == s[i..i + |r|];
    assert forall k :: i + |r| <= k < |s| ==> IsTrimmable(s[k]) by {
      forall k | i + |r| <= k < |s| ensures IsTrimmable(s[k]) {
        assert s[k] == t[k - i];
      }
    }
    assert && 0 <= i <= i + |r| <= |s| && r == s[i..i + |r|]
           && (forall k :: 0 <= k < i ==> IsTrimmable(s[k]))
           && (forall k :: i + |r| <= k < |s| ==> IsTrimmable(s[k]));
    r
  }

  /** A string is blank when only trimmable characters make it up; the
      validator's `required` rule fails on it and skips every rule that is
      not implicit. */
  predicate Blank(s: string) {
    Trim(s) == []
  }

  lemma {:induction false} TrimStartOfBlank(s: string)
    requires forall i :: 0 <= i < |s| ==> IsTrimmable(s[i])
    ensures TrimStart(s) == []
    decreases |s|
  {
    if s != [] {
      TrimStartOfBlank(s[1..]);
    }
  }

  lemma BlankIffAllTrimmable(s: string)
    ensures Blank(s) <==> forall i :: 0 <= i < |s| ==> IsTrimmable(s[i])
  {
    if forall i :: 0 <= i < |s| ==> IsTrimmable(s[i]) {
      TrimStartOfBlank(s);
    }
    if Blank(s) {
      assert TrimStart(s) == [];
    }
  }

  /** PHP `empty($s)` on a string: true for "" and for "0". */
  predicate PhpEmpty(s: string) {
    s == "" || s == "0"
  }

  /** `s` occurs in `t` starting at index `i`. */
  predicate OccursAt(t: string, s: string, i: int) {
    0 <= i && i + |s| <= |t| && t[i..i + |s|] == s
  }

  /** `s` occurs in `t` as a contiguous substring. */
  predicate Contains(t: string, s: string) {
    exists i | 0 <= i <= |t| - |s| :: OccursAt(t, s, i)
  }

  /** The position of the row whose key is `id`, as route-model binding
      finds it, or `None` when no row has that key. */
  function FindKey<T>(rows: seq<T>, key: T -> int, id: int): (r: Option<nat>)
    ensures r.Some? ==> r.value < |rows| && key(rows[r.value]) == id
    ensures r.None? ==> forall i :: 0 <= i < |rows| ==> key(rows[i]) != id
  {
    if rows == [] then None
    else if key(rows[0]) == id then Some(0)
    else match FindKey(rows[1..], key, id)
      case Some(k) => Some(k + 1)
      case None => None
  }
}
