/**
  C strings as the editor sees them.

  A Dafny `string` holds the bytes of a NUL-terminated buffer; the terminator
  is implicit at index |s|.  Reading at or past the end, or at an embedded
  NUL byte, yields '\0', exactly as a C loop `for (; s[i] != '\0'; i++)`
  would stop there.
 */
module CStrings {

  /** The byte at index `i` of the buffer `s`; '\0' once past its end. */
  function At(s: string, i: nat): char {
    if i < |s| then s[i] else '\0'
  }

  predicate NoNul(s: string) {
    forall k :: 0 <= k < |s| ==> s[k] != '\0'
  }

  /** strlen: the index of the first NUL byte. */
  function StrLen(s: string): (n: nat)
    ensures n <= |s|
    ensures forall k :: 0 <= k < n ==> s[k] != '\0'
    ensures At(s, n) == '\0'
  {
    if s == [] || s[0] == '\0' then 0 else 1 + StrLen(s[1..])
  }

  /** The C string stored in `s`: what strcpy copies and what printf("%s") prints. */
  function CStr(s: string): (r: string)
    ensures NoNul(r) && r <= s
    ensures At(s, |r|) == '\0'
  {
    s[..StrLen(s)]
  }

  lemma CStrOfNoNul(s: string)
    requires NoNul(s)
    ensures CStr(s) == s
  {
  }

  /** Reading the buffer from index `i` on, as C does with `&s[i]`. */
  lemma AtSuffix(s: string, i: nat, k: nat)
    requires i <= |s|
    ensures At(s[i..], k) == At(s, i + k)
  {
  }

  /** Skipping `k` more bytes of the buffer read from index `i`. */
  lemma SuffixOfSuffix(s: string, i: nat, k: nat)
    requires i + k <= |s|
    ensures s[i..][k..] == s[i + k..]
  {
  }

  /** strchr(s, c) != NULL: the terminator itself is always found. */
  predicate StrChr(s: string, c: char) {
    c == '\0' || c in CStr(s)
  }

  /**
    strbgn (sps.c), i.e. memcmp(str, substr, strlen(substr)) == 0:
    `str` begins with the C string `sub`.
   */
  predicate Strbgn(str: string, sub: string) {
    forall k :: 0 <= k < StrLen(sub) ==> At(str, k) == sub[k]
  }

  /** strbgn compares C strings: `str` begins with `sub` exactly when the C string of `sub` is a prefix of that of `str`. */
  lemma StrbgnIsPrefix(str: string, sub: string)
    ensures Strbgn(str, sub) <==> CStr(sub) <= CStr(str)
  {
  }
}
