/**
 * allocate_string: copy the first length characters of a C string into a
 * freshly allocated buffer of exactly length characters.
 */
module StringCopy {
  /** The greeting main copies: the literal's characters followed by its terminator. */
  const WELCOME: seq<char> := "Welcome to ASM\n" + ['\0']

  /** strlen: the number of characters before the first NUL. */
  function StrLen(s: seq<char>): (n: nat)
    requires '\0' in s
    ensures n < |s| && s[n] == '\0' && '\0' !in s[..n]
  {
    if s[0] == '\0' then 0 else
      assert '\0' in s[1..] by { var k :| 0 <= k < |s| && s[k] == '\0'; assert s[1..][k - 1] == '\0'; }
      1 + StrLen(s[1..])
  }

  /** allocate_string as written: a fresh buffer of exactly length characters, no terminator added. */
  method AllocateString(s: array<char>, length: nat) returns (r: array<char>)
    requires length <= s.Length
    ensures fresh(r) && r.Length == length
    ensures r[..] == s[..length]
  {
    r := new char[length];
    var i := 0;
    while i < length
      invariant 0 <= i <= length
      invariant r[..i] == s[..i]
    {
      r[i] := s[i];
      i := i + 1;
    }
  }

  /**
   * Copying strlen(s) characters, as main does, never copies a terminator:
   * the buffer it then prints with %s holds no NUL at all.
   */
  lemma StrLenCopyUnterminated(s: seq<char>)
    requires '\0' in s
    ensures '\0' !in s[..StrLen(s)]
  {
  }

  /** The greeting in main: 15 characters are copied and none of them ends the string. */
  lemma WelcomeCopyUnterminated()
    ensures StrLen(WELCOME) == 15
    ensures '\0' !in WELCOME[..StrLen(WELCOME)]
  {
    assert WELCOME[15] == '\0';
  }

  /**
   * main as written: the greeting is copied with allocate_string at its
   * strlen, and the buffer handed to printf holds no terminator.
   */
  method CopyWelcome() returns (r: array<char>)
    ensures r.Length == 15 && '\0' !in r[..]
  {
    var s := new char[|WELCOME|](i => if 0 <= i < |WELCOME| then WELCOME[i] else '\0');
    assert s[..] == WELCOME;
    WelcomeCopyUnterminated();
    r := AllocateString(s, StrLen(s[..]));
  }

  /** The copy main evidently needs: length characters followed by a terminator. */
  method AllocateCString(s: array<char>, length: nat) returns (r: array<char>)
    requires length <= s.Length
    ensures fresh(r) && r.Length == length + 1
    ensures r[..length] == s[..length] && r[length] == '\0'
  {
    r := new char[length + 1];
    var i := 0;
    while i < length
      invariant 0 <= i <= length
      invariant r[..i] == s[..i]
    {
      r[i] := s[i];
      i := i + 1;
    }
    r[length] := '\0';
  }

  /** A terminated copy of a string without NUL reads back, through strlen, as exactly that string. */
  lemma TerminatedCopyReadsBack(copy: seq<char>, text: seq<char>)
    requires copy == text + ['\0'] && '\0' !in text
    ensures '\0' in copy && StrLen(copy) == |text| && copy[..StrLen(copy)] == text
  {
    assert copy[|text|] == '\0';
  }
}
