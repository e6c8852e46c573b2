/**
 * The two record types of the system (Models/Birthday.cs, Models/BirthdayEntry.cs)
 * and the fixed-width integer types their fields use.
 */
module Models {

  const ShortMin := -0x8000
  const ShortMax := 0x7FFF

  /** C# `short`. */
  type Short = x: int | ShortMin <= x <= ShortMax

  /** C# `int`. */
  type Int32 = x: int | -0x8000_0000 <= x <= 0x7FFF_FFFF

  /** C# `long`. */
  type Long = x: int | -0x8000_0000_0000_0000 <= x <= 0x7FFF_FFFF_FFFF_FFFF

  /** The unchecked cast `(short)x` of C#: keep the low 16 bits, read them as two's complement. */
  function WrapShort(x: int): (r: Short)
    ensures (r - x) % 0x1_0000 == 0
    ensures ShortMin <= x <= ShortMax ==> r == x
  {
    (x - ShortMin) % 0x1_0000 + ShortMin
  }

  /**
   * A row of the "Birthdays" table. The auto-increment `Id` column is assigned by
   * the database and never read by the system, so the record is the triple the
   * system works with.
   */
  datatype Birthday = Birthday(name: string, birthDate: Short, chatId: string)

  /** A row of the "BirthdayEntries" table: the message log. */
  datatype BirthdayEntry = BirthdayEntry(id: Long, message: string, chatId: Long)

  /** A day of the year as `DateTime` gives it (month 1..12, day 1..31). */
  datatype CalendarDate = CalendarDate(month: int, day: int)
  {
    predicate Valid() { 1 <= month <= 12 && 1 <= day <= 31 }
  }
}
