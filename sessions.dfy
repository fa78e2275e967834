/**
 * The connection record both session sources produce (a dictionary with the keys
 * user, real_ip, virtual_ip, bytes_recv, bytes_sent and connected_since in the
 * manager), and the tolerant policy it applies to byte counters.
 */
module Sessions {
  import opened Text

  /** What the manager reports for a value its source does not give. */
  const NotAvailable: string := "N/A"

  datatype Session = Session(
    user: string,
    realIp: string,
    virtualIp: string,
    bytesRecv: nat,
    bytesSent: nat,
    connectedSince: string)

  /** A byte counter: the field's decimal value when it is all digits, otherwise 0, never an error. */
  function CounterField(field: string): nat {
    if IsDigits(field) then DecimalValue(field) else 0
  }

  /** A counter written in decimal reads back as itself; anything that is not all digits reads as 0. */
  lemma CounterFieldRoundTrip(n: nat, garbled: string)
    requires garbled == [] || exists i :: 0 <= i < |garbled| && !IsDigit(garbled[i])
    ensures CounterField(Decimal(n)) == n
    ensures CounterField(garbled) == 0
  {
    DecimalRoundTrip(n);
  }
}
