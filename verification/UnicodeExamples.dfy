/** The specification on the examples that the standards give. */
module UnicodeExamples {
  import opened Unicode

  /** Examples of the standards: section 7 of RFC 3629 and section 5 of RFC 2781. */
  lemma Examples()
    ensures Bytes(Utf8, 0x41) == [0x41] && Bytes(Utf8, 0x391) == [0xCE, 0x91]
    ensures Bytes(Utf8, 0x2262) == [0xE2, 0x89, 0xA2] && Bytes(Utf8, 0x2_33B4) == [0xF0, 0xA3, 0x8E, 0xB4]
    ensures Bytes(Utf16BE, 0x3D) == [0x00, 0x3D] && Bytes(Utf16BE, 0x1_2345) == [0xD8, 0x08, 0xDF, 0x45]
    ensures Bytes(Utf16LE, 0x3D) == [0x3D, 0x00] && Bytes(Utf16LE, 0x1_2345) == [0x08, 0xD8, 0x45, 0xDF]
    ensures Bytes(Utf32BE, 0x1_2345) == [0x00, 0x01, 0x23, 0x45]
    ensures Bytes(Utf32LE, 0x1_2345) == [0x45, 0x23, 0x01, 0x00]
  {
  }
}
