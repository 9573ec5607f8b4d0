/** The task id check (core/validation/id/service/TaskIDValidator.java).
    The source matches the whole string against the pattern
    hex{8} "-" hex{4} "-" hex{4} "-" hex{4} "-" hex{12}, hex digits in either
    case. Here the pattern is written as its groups, and is proved equal to
    the positional description of the canonical string form of a UUID in
    section 3 of RFC 4122. */
module TaskIdValidator {

  predicate IsHexDigit(c: char) {
    ('0' <= c <= '9') || ('a' <= c <= 'f') || ('A' <= c <= 'F')
  }

  predicate AllHex(s: string) {
    forall i :: 0 <= i < |s| ==> IsHexDigit(s[i])
  }

  /** The group widths of the pattern, in order. */
  const Groups: seq<nat> := [8, 4, 4, 4, 12]

  /** `s` is a run of groups, each a '-' followed by exactly that many hex digits. */
  predicate DashedGroups(s: string, widths: seq<nat>)
    decreases |widths|
  {
    if widths == [] then s == []
    else
      |s| > widths[0] && s[0] == '-' && AllHex(s[1..widths[0] + 1])
      && DashedGroups(s[widths[0] + 1..], widths[1..])
  }

  /** isValidTaskID: the whole string matches the pattern (a first group of
      eight hex digits, then the four dashed groups). */
  predicate IsValidTaskID(id: string)
    ensures IsValidTaskID(id) ==> |id| == 36 && id[8] == '-'
  {
    DashedTail(if |id| >= Groups[0] then id[Groups[0]..] else []);
    |id| >= Groups[0] && AllHex(id[..Groups[0]]) && DashedGroups(id[Groups[0]..], Groups[1..])
  }

  /** The four dashed groups after the first take 28 characters and start with a hyphen. */
  lemma DashedTail(s: string)
    ensures DashedGroups(s, Groups[1..]) ==> |s| == 28 && s[0] == '-'
  {
    if DashedGroups(s, Groups[1..]) {
      assert Groups[1..] == [4, 4, 4, 12];
      var s1 := s[5..];
      assert DashedGroups(s1, [4, 4, 12]);
      var s2 := s1[5..];
      assert DashedGroups(s2, [4, 12]);
      var s3 := s2[5..];
      assert DashedGroups(s3, [12]);
      assert DashedGroups(s3[13..], []);
    }
  }

  /** Positions of the four hyphens in the 36-character form. */
  predicate IsHyphenPosition(i: int) {
    i == 8 || i == 13 || i == 18 || i == 23
  }

  /** The canonical form, position by position. */
  predicate IsCanonical(id: string) {
    |id| == 36
    && forall i :: 0 <= i < 36 ==> if IsHyphenPosition(i) then id[i] == '-' else IsHexDigit(id[i])
  }

  /** A run of dashed groups of width w has the length and shape one expects. */
  lemma DashedGroupLength(s: string, widths: seq<nat>, w: nat)
    requires |widths| == 1 && widths[0] == w
    ensures DashedGroups(s, widths) <==> |s| == w + 1 && s[0] == '-' && AllHex(s[1..])
  {
    if DashedGroups(s, widths) {
      assert DashedGroups(s[w + 1..], widths[1..]);
      assert widths[1..] == [];
    }
    if |s| == w + 1 && s[0] == '-' && AllHex(s[1..]) {
      assert s[w + 1..] == [];
      assert widths[1..] == [];
      assert s[1..w + 1] == s[1..];
    }
  }

  /** The pattern accepts exactly the canonical strings: length 36, hyphens
      at 8, 13, 18 and 23, hex digits everywhere else. */
  lemma ValidIffCanonical(id: string)
    ensures IsValidTaskID(id) <==> IsCanonical(id)
  {
    if IsValidTaskID(id) {
      var s1 := id[8..];
      assert DashedGroups(s1, [4, 4, 4, 12]);
      var s2 := s1[5..];
      assert DashedGroups(s2, [4, 4, 12]);
      var s3 := s2[5..];
      assert DashedGroups(s3, [4, 12]);
      var s4 := s3[5..];
      assert DashedGroups(s4, [12]);
      DashedGroupLength(s4, [12], 12);
      assert |id| == 36;
      forall i | 0 <= i < 36
        ensures if IsHyphenPosition(i) then id[i] == '-' else IsHexDigit(id[i])
      {
        if i < 8 {
          assert id[i] == id[..8][i];
        } else if i < 13 {
          assert id[i] == s1[i - 8];
          if i > 8 { assert s1[i - 8] == s1[1..5][i - 9]; }
        } else if i < 18 {
          assert id[i] == s2[i - 13];
          if i > 13 { assert s2[i - 13] == s2[1..5][i - 14]; }
        } else if i < 23 {
          assert id[i] == s3[i - 18];
          if i > 18 { assert s3[i - 18] == s3[1..5][i - 19]; }
        } else {
          assert id[i] == s4[i - 23];
          if i > 23 { assert s4[i - 23] == s4[1..][i - 24]; }
        }
      }
    }
    if IsCanonical(id) {
      var s1 := id[8..];
      var s2 := s1[5..];
      var s3 := s2[5..];
      var s4 := s3[5..];
      assert AllHex(id[..8]) by {
        forall i | 0 <= i < 8 ensures IsHexDigit(id[..8][i]) { assert id[..8][i] == id[i]; }
      }
      assert AllHex(s1[1..5]) by {
        forall i | 0 <= i < 4 ensures IsHexDigit(s1[1..5][i]) { assert s1[1..5][i] == id[9 + i]; }
      }
      assert AllHex(s2[1..5]) by {
        forall i | 0 <= i < 4 ensures IsHexDigit(s2[1..5][i]) { assert s2[1..5][i] == id[14 + i]; }
      }
      assert AllHex(s3[1..5]) by {
        forall i | 0 <= i < 4 ensures IsHexDigit(s3[1..5][i]) { assert s3[1..5][i] == id[19 + i]; }
      }
      assert AllHex(s4[1..]) by {
        forall i | 0 <= i < 12 ensures IsHexDigit(s4[1..][i]) { assert s4[1..][i] == id[24 + i]; }
      }
      assert s4[0] == id[23];
      DashedGroupLength(s4, [12], 12);
      assert [4, 12][1..] == [12];
      assert DashedGroups(s3, [4, 12]);
      assert [4, 4, 12][1..] == [4, 12];
      assert DashedGroups(s2, [4, 4, 12]);
      assert [4, 4, 4, 12][1..] == [4, 4, 12];
      assert DashedGroups(s1, [4, 4, 4, 12]);
      assert Groups[1..] == [4, 4, 4, 12];
    }
  }

  /** Whole-string match: anything accepted has length 36, so adding any
      prefix or suffix (whitespace, braces, "urn:uuid:") to an accepted id
      is rejected, and so is the empty string. */
  lemma RejectsAffixes(id: string, extra: string)
    requires IsValidTaskID(id) && extra != []
    ensures !IsValidTaskID(extra + id) && !IsValidTaskID(id + extra)
    ensures !IsValidTaskID("")
  {
    ValidIffCanonical(id);
    ValidIffCanonical(extra + id);
    ValidIffCanonical(id + extra);
    ValidIffCanonical("");
  }

  /** Java's toUpperCase on the ASCII letters. */
  function UpperAscii(c: char): char {
    if 'a' <= c <= 'z' then (c as int - 32) as char else c
  }

  function ToUpper(s: string): (r: string)
    ensures |r| == |s| && forall i :: 0 <= i < |s| ==> r[i] == UpperAscii(s[i])
  {
    seq(|s|, i requires 0 <= i < |s| => UpperAscii(s[i]))
  }

  /** Upper-case and lower-case hex digits are both accepted: changing the
      case of an id never changes the verdict. */
  lemma CaseInsensitive(id: string)
    ensures IsValidTaskID(id) <==> IsValidTaskID(ToUpper(id))
  {
    ValidIffCanonical(id);
    ValidIffCanonical(ToUpper(id));
  }

  /** Version and variant positions are not checked: the nil UUID, which is
      not a version-4 id, is accepted. */
  lemma AcceptsNilUuid()
    ensures IsValidTaskID("00000000-0000-0000-0000-000000000000")
  {
    var nil := "00000000-0000-0000-0000-000000000000";
    ValidIffCanonical(nil);
    assert IsCanonical(nil);
  }

  /** The lower-case hex digit Java's UUID.toString prints for 0 <= d < 16. */
  function LowerHexChar(d: nat): char
    requires d < 16
  {
    if d < 10 then ('0' as int + d) as char else ('a' as int + d - 10) as char
  }

  /** The last `n` hex digits of `v`, most significant first (UUID.digits). */
  function HexDigits(v: nat, n: nat): (r: string)
    ensures |r| == n && AllHex(r)
  {
    if n == 0 then [] else HexDigits(v / 16, n - 1) + [LowerHexChar(v % 16)]
  }

  /** UUID.toString of the UUID whose 64-bit halves, read as unsigned, are
      `msb` and `lsb`. */
  function UuidToString(msb: nat, lsb: nat): string {
    HexDigits(msb / 0x1_0000_0000, 8) + "-" + HexDigits(msb / 0x1_0000, 4) + "-"
    + HexDigits(msb, 4) + "-" + HexDigits(lsb / 0x1_0000_0000_0000, 4) + "-"
    + HexDigits(lsb, 12)
  }

  /** Every id UUID.randomUUID().toString() produces passes the check. */
  lemma GeneratedIdsAreValid(msb: nat, lsb: nat)
    ensures IsValidTaskID(UuidToString(msb, lsb))
  {
    var a, b, c, d, e := HexDigits(msb / 0x1_0000_0000, 8), HexDigits(msb / 0x1_0000, 4),
      HexDigits(msb, 4), HexDigits(lsb / 0x1_0000_0000_0000, 4), HexDigits(lsb, 12);
    var id := UuidToString(msb, lsb);
    assert id == a + "-" + b + "-" + c + "-" + d + "-" + e;
    forall i | 0 <= i < 36
      ensures if IsHyphenPosition(i) then id[i] == '-' else IsHexDigit(id[i])
    {
      if i < 8 { assert id[i] == a[i]; }
      else if i == 8 { assert id[i] == '-'; }
      else if i < 13 { assert id[i] == b[i - 9]; }
      else if i == 13 { assert id[i] == '-'; }
      else if i < 18 { assert id[i] == c[i - 14]; }
      else if i == 18 { assert id[i] == '-'; }
      else if i < 23 { assert id[i] == d[i - 19]; }
      else if i == 23 { assert id[i] == '-'; }
      else { assert id[i] == e[i - 24]; }
    }
    ValidIffCanonical(id);
  }
}
