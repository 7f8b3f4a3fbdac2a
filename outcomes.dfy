/** Option, Result and Outcome over the failures the table scraper can raise.
    Each Error constructor stands for one Java exception (or failed TestNG
    assertion) that the scraper lets escape to the test runner. */
module Outcomes {

  datatype Option<+T> = None | Some(value: T)

  datatype Error =
    /** `headers.get(i)` with i == size: a row has more cells than there are headers */
    | HeaderIndexOutOfBounds(index: nat, size: nat)
    /** `Assert.assertTrue(matcher.find(), "No match found.")` failed */
    | NoCountFound
    /** `Integer.parseInt` of a digit string above Integer.MAX_VALUE */
    | NumberFormat(digits: string)
    /** `Assert.assertEquals(totalEntries, Config.entriesSize, ...)` failed */
    | CountMismatch(found: int, expected: int)
    /** `Config.entries.entrySet()` while `Config.entries` is null */
    | NullEntries
    /** `tabName.substring(0, 1)` on the empty string */
    | EmptyTabName

  datatype Result<+T> = Success(value: T) | Failure(error: Error)

  /** The result of a check that returns nothing when it passes. */
  datatype Outcome = Pass | Fail(error: Error)
}
