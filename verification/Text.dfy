/**
 Bytes, C strings and the three case foldings the daemon uses.
 A C string is a sequence of non-zero bytes; reading one past its end yields
 the terminating zero, as the pointer code does.
 */
module Text {

  type byte = b: int | 0 <= b < 256

  type CChar = b: int | 1 <= b < 256 witness 1

  type CString = seq<CChar>

  /** Content of an IRC line without its line end. */
  const LINE_CONTENT_MAX: nat := 510

  function Min(a: nat, b: nat): nat { if a < b then a else b }

  datatype Option<+T> = None | Some(value: T)

  /** The byte a C pointer at offset i would read: the terminator past the last character. */
  function At(s: CString, i: nat): byte {
    if i < |s| then s[i] else 0
  }

  /** ASCII tolower in the C locale. */
  function Lower(b: byte): byte {
    if 'A' as int <= b <= 'Z' as int then b + 32 else b
  }

  /** rfc1459_fold of channel_policy.c: brackets fold towards braces. */
  function FoldToBraces(b: byte): byte {
    if 'A' as int <= b <= 'Z' as int then b + 32
    else if b == '[' as int then '{' as int
    else if b == ']' as int then '}' as int
    else if b == '\\' as int then '|' as int
    else if b == '^' as int then '~' as int
    else b
  }

  /** irc_fold of hash.c: braces fold towards brackets. */
  function FoldToBrackets(b: byte): byte {
    if 'A' as int <= b <= 'Z' as int then b + 32
    else if b == '{' as int then '[' as int
    else if b == '}' as int then ']' as int
    else if b == '|' as int then '\\' as int
    else if b == '~' as int then '^' as int
    else b
  }

  /** The fold class of a name under RFC 1459 casemapping. */
  function Folded(name: CString): (f: seq<byte>)
    ensures |f| == |name| && forall i :: 0 <= i < |name| ==> f[i] == FoldToBrackets(name[i])
  {
    seq(|name|, i requires 0 <= i < |name| => FoldToBrackets(name[i]))
  }
}
