/**
 * Interface names and keys of the WireGuard control library: the byte-level
 * validator behind `InterfaceName::from_str`, reading a name back up to its
 * first NUL, and the length check of `Key::from_base64`.
 *
 * A Rust `&str` is modelled by its UTF-8 bytes; base64 decoding is an
 * opaque function-valued parameter.
 */
module WireguardControl {
  import opened Primitives

  /** Linux's interface-name buffer size, trailing NUL included. */
  const IFNAMSIZ: nat := 16

  const KEY_LEN: nat := 32

  datatype InvalidInterfaceName =
    | TooLong       // longer than IFNAMSIZ - 1 bytes
    | Empty         // no bytes at all
    | InvalidChars  // a NUL, a '/' or ASCII whitespace

  /** The fixed C buffer of an interface name; the last byte is always NUL. */
  type RawInterfaceName = b: seq<byte> | |b| == IFNAMSIZ && b[IFNAMSIZ - 1] == 0
    witness [0, 0, 0, 0, 0, 0, 0, 0, 0, 0, 0, 0, 0, 0, 0, 0]

  datatype InterfaceName = InterfaceName(raw: RawInterfaceName)

  /** `u8::is_ascii_whitespace`: space, tab, line feed, form feed, carriage
      return (not vertical tab). */
  predicate IsAsciiWhitespace(b: byte) {
    b == 0x20 || b == 0x09 || b == 0x0A || b == 0x0C || b == 0x0D
  }

  /** A byte that may not appear in an interface name. */
  predicate Forbidden(b: byte): (r: bool)
    ensures r <==> b in {0x00, 0x2F, 0x20, 0x09, 0x0A, 0x0C, 0x0D}
  {
    b == 0 || b == 0x2F || IsAsciiWhitespace(b)
  }

  /** The bytes of `b` before its first NUL (all of `b` if it has none). */
  function UpToNul(b: seq<byte>): (r: seq<byte>)
    ensures |r| <= |b| && r == b[..|r|]
    ensures forall i :: 0 <= i < |r| ==> r[i] != 0
    ensures |r| < |b| ==> b[|r|] == 0
  {
    if b == [] || b[0] == 0 then [] else [b[0]] + UpToNul(b[1..])
  }

  /** `as_str_lossy`: the name read as a C string, up to its first NUL. */
  function AsStrLossy(name: InterfaceName): (s: seq<byte>)
    ensures |s| < IFNAMSIZ
    ensures s == name.raw[..|s|] && name.raw[|s|] == 0
    ensures forall i :: 0 <= i < |s| ==> s[i] != 0
  {
    UpToNul(name.raw)
  }

  /** If the first `k` bytes hold no NUL and byte `k` is one (or `b` ends
      there), reading up to the first NUL yields exactly those `k` bytes. */
  lemma UpToNulAt(b: seq<byte>, k: nat)
    requires k <= |b|
    requires forall i :: 0 <= i < k ==> b[i] != 0
    requires k < |b| ==> b[k] == 0
    ensures UpToNul(b) == b[..k]
  {
  }

  /** `InterfaceName::from_str`: fill a zeroed buffer with the name's bytes,
      rejecting empty and overlong names first and then any forbidden byte. */
  method FromStr(s: seq<byte>) returns (r: Result<InterfaceName, InvalidInterfaceName>)
    ensures |s| == 0 ==> r == Err(Empty)
    ensures |s| > IFNAMSIZ - 1 ==> r == Err(TooLong)
    ensures 0 < |s| <= IFNAMSIZ - 1 && (exists i :: 0 <= i < |s| && Forbidden(s[i])) ==> r == Err(InvalidChars)
    ensures r.Ok? <==> 0 < |s| <= IFNAMSIZ - 1 && forall i :: 0 <= i < |s| ==> !Forbidden(s[i])
    ensures r.Ok? ==> forall i :: 0 <= i < IFNAMSIZ ==> r.value.raw[i] == if i < |s| then s[i] else 0
    ensures r.Ok? ==> AsStrLossy(r.value) == s
  {
    var len := |s|;
    if len == 0 {
      return Err(Empty);
    }
    // leave room for the trailing NUL
    if len > IFNAMSIZ - 1 {
      return Err(TooLong);
    }
    var buf := new byte[IFNAMSIZ](_ => 0);
    // zipping the 16-byte buffer with the name visits exactly the name's bytes
    for i := 0 to len
      invariant forall j :: 0 <= j < i ==> buf[j] == s[j] && !Forbidden(s[j])
      invariant forall j :: i <= j < IFNAMSIZ ==> buf[j] == 0
    {
      if Forbidden(s[i]) {
        return Err(InvalidChars);
      }
      buf[i] := s[i];
    }
    var raw := buf[..];
    UpToNulAt(raw, len);
    assert raw[..len] == s;
    r := Ok(InterfaceName(raw));
  }

  /** A WireGuard key: exactly 32 bytes. */
  type KeyBytes = b: seq<byte> | |b| == KEY_LEN
    witness [0, 0, 0, 0, 0, 0, 0, 0, 0, 0, 0, 0, 0, 0, 0, 0, 0, 0, 0, 0, 0, 0, 0, 0, 0, 0, 0, 0, 0, 0, 0, 0]

  datatype Key = Key(bytes: KeyBytes)

  datatype InvalidKey = InvalidKey

  /** `Key::from_base64`: decode, insist on 32 bytes, copy them into the key.
      `decode` stands for the base64 library; None is its failure. */
  method FromBase64(key: string, decode: string -> Option<seq<byte>>) returns (r: Result<Key, InvalidKey>)
    ensures r.Ok? <==> decode(key).Some? && |decode(key).value| == KEY_LEN
    ensures r.Ok? ==> r.value.bytes == decode(key).value
  {
    var keyBytes := new byte[KEY_LEN](_ => 0);
    var decoded := decode(key);
    if decoded.None? {
      return Err(InvalidKey);
    }
    if |decoded.value| != KEY_LEN {
      return Err(InvalidKey);
    }
    // copy_from_slice
    forall i | 0 <= i < KEY_LEN {
      keyBytes[i] := decoded.value[i];
    }
    assert keyBytes[..] == decoded.value;
    return Ok(Key(keyBytes[..]));
  }
}
