/**
 * String helpers the scraper's page script relies on: JavaScript's
 * `String.prototype.trim`, `String.prototype.includes`, and the "N/A"
 * placeholder written for anything the page does not provide.
 */
module Text {

  /** Placeholder written for a missing field or an unmatched auction id. */
  const NotAvailable: string := "N/A"

  /**
   * The characters `trim` removes: ECMAScript's WhiteSpace (tab, vertical
   * tab, form feed, no-break space, the byte-order mark and every space
   * separator of Unicode category Zs) and its LineTerminators.
   */
  predicate IsTrimmable(c: char) {
    var u := c as int;
    u == 0x09 || u == 0x0A || u == 0x0B || u == 0x0C || u == 0x0D || u == 0x20
    || u == 0xA0 || u == 0x1680 || (0x2000 <= u <= 0x200A) || u == 0x2028 || u == 0x2029
    || u == 0x202F || u == 0x205F || u == 0x3000 || u == 0xFEFF
  }

  /** `s` with its leading trimmable characters removed. */
  function TrimStart(s: string): (r: string)
    ensures |r| <= |s| && r == s[|s| - |r|..]
    ensures forall i :: 0 <= i < |s| - |r| ==> IsTrimmable(s[i])
    ensures r == [] || !IsTrimmable(r[0])
  {
    if s != [] && IsTrimmable(s[0]) then TrimStart(s[1..]) else s
  }

  /** `s` with its trailing trimmable characters removed. */
  function TrimEnd(s: string): (r: string)
    ensures |r| <= |s| && r == s[..|r|]
    ensures forall i :: |r| <= i < |s| ==> IsTrimmable(s[i])
    ensures r == [] || !IsTrimmable(r[|r| - 1])
  {
    if s != [] && IsTrimmable(s[|s| - 1]) then TrimEnd(s[..|s| - 1]) else s
  }

  /** JavaScript `s.trim()`. */
  function Trim(s: string): (r: string)
    ensures |r| <= |s|
    ensures r == [] || (!IsTrimmable(r[0]) && !IsTrimmable(r[|r| - 1]))
  {
    TrimEnd(TrimStart(s))
  }

  /** Trim keeps a contiguous piece of `s`: the part after the leading trimmable characters. */
  lemma TrimIsSlice(s: string)
    ensures var a := |s| - |TrimStart(s)|;
      a + |Trim(s)| <= |s| && Trim(s) == s[a..a + |Trim(s)|]
  {
    var t := TrimStart(s);
    assert t == s[|s| - |t|..];
  }

  /** Everything Trim drops from `s` is trimmable. */
  lemma TrimDropsOnlyTrimmable(s: string)
    ensures var a := |s| - |TrimStart(s)|;
      forall i :: 0 <= i < |s| && !(a <= i < a + |Trim(s)|) ==> IsTrimmable(s[i])
  {
    var t := TrimStart(s);
    var a := |s| - |t|;
    var r := Trim(s);
    forall i | a + |r| <= i < |s|
      ensures IsTrimmable(s[i])
    {
      assert s[i] == t[i - a];
    }
  }

  /** Trimming twice is trimming once. */
  lemma TrimIdempotent(s: string)
    ensures Trim(Trim(s)) == Trim(s)
  {
    var r := Trim(s);
    assert TrimStart(r) == r;
    assert TrimEnd(r) == r;
  }

  /** The placeholder is its own trimmed form. */
  lemma TrimNotAvailable()
    ensures Trim(NotAvailable) == NotAvailable
  {
    assert !IsTrimmable(NotAvailable[0]) && !IsTrimmable(NotAvailable[2]);
  }

  /** `pat` occurs in `s` starting at index `i`. */
  predicate OccursAt(s: string, pat: string, i: nat) {
    i + |pat| <= |s| && s[i..i + |pat|] == pat
  }

  /** JavaScript `s.includes(pat)`. */
  predicate Contains(s: string, pat: string) {
    exists i: nat | i <= |s| :: OccursAt(s, pat, i)
  }
}
