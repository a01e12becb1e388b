/** The record shape stored in the collection (QBRecord.h). */
module QBRecords {

  const U32_LIMIT: int := 0x1_0000_0000
  const U64_LIMIT: int := 0x1_0000_0000_0000_0000

  /** std::uint32_t and std::uint64_t as ranges of the unbounded integers. */
  type u32 = x: int | 0 <= x < 0x1_0000_0000
  type u64 = x: int | 0 <= x < 0x1_0000_0000_0000_0000

  /** One record: `id` is the primary key; the other fields are searchable. */
  datatype QBRecord = QBRecord(id: u32, value: u64, name: string, description: string)
}
