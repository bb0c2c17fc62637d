/** Lower-casing, and the normal form in which MACs are compared. */
module Casing {

  /** unicode.ToLower, exact on every character whose lower case is ASCII: the capital I
      with dot and the Kelvin sign are the two such characters outside ASCII. */
  function Lower(c: char): char {
    if 'A' <= c <= 'Z' then (c as int + 32) as char
    else if c == '\U{0130}' then 'i'
    else if c == '\U{212A}' then 'k'
    else c
  }

  /** NormalizeMAC: colons dropped, the rest lower-cased. */
  function NormalizeMac(mac: string): string {
    if mac == "" then "" else
      NormalizeMac(mac[..|mac| - 1]) + (if mac[|mac| - 1] == ':' then "" else [Lower(mac[|mac| - 1])])
  }
}
