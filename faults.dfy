/** The exceptions the services throw, with the messages they carry. */
module Faults {

  /** `ResourceNotFoundException` and `IllegalArgumentException`, each with its message. */
  datatype Fault = ResourceNotFound(message: string) | IllegalArgument(message: string)

  function DigitChar(d: nat): char
    requires d < 10
  {
    (48 + d) as char
  }

  /** The decimal digits of `n`, most significant first. */
  function Digits(n: nat): string
    decreases n
  {
    if n < 10 then [DigitChar(n)] else Digits(n / 10) + [DigitChar(n % 10)]
  }

  /** Java's string conversion of a `Long`. */
  function LongToString(n: int): string
  {
    if n < 0 then "-" + Digits(-n) else Digits(n)
  }

  function EmployeeNotFound(id: int): Fault
  {
    ResourceNotFound("Employee not found with id: " + LongToString(id))
  }

  function DuplicateEmail(email: string): Fault
  {
    IllegalArgument("Employee with email " + email + " already exists")
  }

  function DepartmentNotFound(id: int): Fault
  {
    ResourceNotFound("Department not found with id: " + LongToString(id))
  }

  function DuplicateDepartmentName(name: string): Fault
  {
    IllegalArgument("Department with name " + name + " already exists")
  }
}
