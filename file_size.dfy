/**
 * `formatFileSize`: which unit a byte count is shown in, and the exact text
 * for counts below one kilobyte. The one-decimal text of the larger units
 * comes from floating-point division and `toFixed(1)` and is not modelled.
 */
module FileSize {
  import opened Wrappers
  import opened Decimal

  datatype Unit = KB | MB | GB

  /** The size as shown: "<n> B" written out, or a scaled value in a unit. */
  datatype SizeText = Bytes(text: string) | Scaled(unit: Unit)

  function Factor(u: Unit): nat {
    match u
    case KB => 1024
    case MB => 1024 * 1024
    case GB => 1024 * 1024 * 1024
  }

  function UnitRank(s: SizeText): nat {
    match s
    case Bytes(_) => 0
    case Scaled(KB) => 1
    case Scaled(MB) => 2
    case Scaled(GB) => 3
  }

  /**
   * The unit is the largest one not exceeding the size (the size divided by
   * it is at least 1), and below GB the scaled value stays under 1024. A
   * size under 1024 (negative ones too) is the integer followed by " B".
   */
  function FormatFileSize(bytes: int): (r: SizeText)
    ensures r.Bytes? <==> bytes < 1024
    ensures r.Bytes? ==> r.text == IntToString(bytes) + " B"
    ensures r.Scaled? ==> Factor(r.unit) <= bytes
    ensures r.Scaled? && r.unit != GB ==> bytes < 1024 * Factor(r.unit)
  {
    if bytes < 1024 then Bytes(IntToString(bytes) + " B")
    else if bytes < 1048576 then Scaled(KB)
    else if bytes < 1073741824 then Scaled(MB)
    else Scaled(GB)
  }

  /** The unit is determined by the size: one unit fits each size. */
  lemma UnitUnique(bytes: int, u: Unit)
    requires Factor(u) <= bytes && (u != GB ==> bytes < 1024 * Factor(u))
    ensures FormatFileSize(bytes) == Scaled(u)
  {
  }

  /** A larger file is never shown in a smaller unit. */
  lemma UnitMonotone(a: int, b: int)
    requires a <= b
    ensures UnitRank(FormatFileSize(a)) <= UnitRank(FormatFileSize(b))
  {
  }

  /** The byte count can be read back from its text. */
  lemma BytesTextRoundTrip(bytes: int)
    requires bytes < 1024
    ensures FormatFileSize(bytes).text == IntToString(bytes) + " B"
    ensures ParseInt(FormatFileSize(bytes).text[..|FormatFileSize(bytes).text| - 2]) == Some(bytes)
  {
    var t := FormatFileSize(bytes).text;
    assert t[..|t| - 2] == IntToString(bytes);
    IntToStringRoundTrip(bytes);
  }

  lemma Examples()
    ensures FormatFileSize(500) == Bytes("500 B")
    ensures FormatFileSize(1023) == Bytes("1023 B")
    ensures FormatFileSize(1024) == Scaled(KB) && FormatFileSize(2048) == Scaled(KB)
    ensures FormatFileSize(1048576) == Scaled(MB)
    ensures FormatFileSize(1073741824) == Scaled(GB)
  {
  }
}
