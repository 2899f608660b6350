/**
 ASCII lower-casing, as the toolkit applies it to tokens, paths and module names.
 */
module Ascii {
  import opened MachineInts

  function LowerChar(c: char): (r: char)
  {
    if 'A' <= c <= 'Z' then (c as int + 32) as char else c
  }

  function LowerByte(b: u8): (r: u8)
  {
    LowerChar(b as char) as int
  }

  function LowerBytes(s: seq<u8>): (r: seq<u8>)
    ensures |r| == |s|
  {
    if s == [] then [] else [LowerByte(s[0])] + LowerBytes(s[1..])
  }
}
