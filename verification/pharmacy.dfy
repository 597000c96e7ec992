/**
 * The pharmacy screen (components/features/pharmacy-management.tsx): the
 * medicine list with its low-stock threshold, the admin-only form that adds a
 * medicine, and the pending prescriptions that the pharmacist marks
 * dispensed. Quantities are the integers the form parses; the clock is a
 * parameter.
 */
module Pharmacy {
  import opened Seqs
  import opened Accounts

  datatype Medicine = Medicine(
    id: string, name: string, dosage: string, quantity: int, price: real,
    expiryDate: string, supplier: string)

  /** One line of a prescription. */
  datatype PrescribedItem = PrescribedItem(medicineId: string, medicineName: string, dosage: string, quantity: int)

  datatype PrescriptionStatus = Pending | Dispensed | Cancelled

  datatype Prescription = Prescription(
    id: string, patientId: string, patientName: string, doctorName: string,
    medicines: seq<PrescribedItem>, date: string, status: PrescriptionStatus)

  /** Below this many units a medicine is low on stock. */
  const LowStockThreshold: int := 10

  /** The filter of `pendingPrescriptions`. */
  predicate IsPending(p: Prescription)
  {
    p.status == Pending
  }

  /** `pendingPrescriptions`: exactly the pending prescriptions, in stored order. */
  function PendingPrescriptions(prescriptions: seq<Prescription>): (pending: seq<Prescription>)
    ensures forall k :: 0 <= k < |pending| ==> pending[k] in prescriptions && pending[k].status == Pending
    ensures forall j :: 0 <= j < |prescriptions| && prescriptions[j].status == Pending ==> prescriptions[j] in pending
    ensures Subsequence(pending, prescriptions)
    ensures forall p :: multiset(pending)[p] == if p.status == Pending then multiset(prescriptions)[p] else 0
  {
    FilterOrderAndCounts(prescriptions, IsPending);
    Filter(prescriptions, IsPending)
  }

  /** `lowStockMedicines`: exactly the medicines with fewer than ten units, in stored order. */
  function LowStockMedicines(medicines: seq<Medicine>): (low: seq<Medicine>)
    ensures forall k :: 0 <= k < |low| ==> low[k] in medicines && low[k].quantity < 10
    ensures forall j :: 0 <= j < |medicines| && medicines[j].quantity < 10 ==> medicines[j] in low
    ensures Subsequence(low, medicines)
    ensures forall m :: multiset(low)[m] == if m.quantity < 10 then multiset(medicines)[m] else 0
  {
    FilterOrderAndCounts(medicines, (m: Medicine) => m.quantity < LowStockThreshold);
    Filter(medicines, (m: Medicine) => m.quantity < LowStockThreshold)
  }

  /** The quantity badge of a medicine row is red. */
  predicate RedBadge(m: Medicine)
  {
    m.quantity < 10
  }

  /** The red badge and the low-stock list use the same threshold: a row is red exactly when it is in the list. */
  lemma RedBadgeMatchesLowStock(medicines: seq<Medicine>, k: int)
    requires 0 <= k < |medicines|
    ensures RedBadge(medicines[k]) <==> medicines[k] in LowStockMedicines(medicines)
  {
  }

  /** The "Add Medicine" control is rendered for a role. */
  predicate AddMedicineOffered(role: string)
  {
    role == "admin"
  }

  /** The medicine `handleAddMedicine` appends, identified by the clock. */
  function NewMedicine(name: string, dosage: string, quantity: int, price: real, expiryDate: string,
                       supplier: string, now: int): (m: Medicine)
    ensures m.id == DecimalString(now)
    ensures m.name == name && m.dosage == dosage && m.quantity == quantity && m.price == price
    ensures m.expiryDate == expiryDate && m.supplier == supplier
  {
    Medicine(DecimalString(now), name, dosage, quantity, price, expiryDate, supplier)
  }

  /** The list after `updatePrescriptionStatus`: the prescriptions with the id take the new status. */
  function StatusUpdated(prescriptions: seq<Prescription>, id: string, newStatus: PrescriptionStatus): (r: seq<Prescription>)
    ensures |r| == |prescriptions|
    ensures forall k :: 0 <= k < |prescriptions| ==>
      r[k] == if prescriptions[k].id == id then prescriptions[k].(status := newStatus) else prescriptions[k]
  {
    seq(|prescriptions|, k requires 0 <= k < |prescriptions| =>
      if prescriptions[k].id == id then prescriptions[k].(status := newStatus) else prescriptions[k])
  }

  /** The filter "another id than `id`". */
  function OtherId(id: string): Prescription -> bool
  {
    (p: Prescription) => p.id != id
  }

  /**
   * Marking a prescription dispensed (or cancelled) takes it off the pending
   * list and leaves the rest of the list as it was, in the same order.
   */
  lemma {:induction false} SettledLeavesPending(prescriptions: seq<Prescription>, id: string, newStatus: PrescriptionStatus)
    requires newStatus != Pending
    ensures PendingPrescriptions(StatusUpdated(prescriptions, id, newStatus))
      == Filter(PendingPrescriptions(prescriptions), OtherId(id))
  {
    if prescriptions != [] {
      var p := prescriptions[0];
      var rest := prescriptions[1..];
      var p' := if p.id == id then p.(status := newStatus) else p;
      assert StatusUpdated(prescriptions, id, newStatus) == [p'] + StatusUpdated(rest, id, newStatus);
      assert ([p'] + StatusUpdated(rest, id, newStatus))[1..] == StatusUpdated(rest, id, newStatus);
      SettledLeavesPending(rest, id, newStatus);
      if IsPending(p) {
        assert PendingPrescriptions(prescriptions) == [p] + PendingPrescriptions(rest);
        assert ([p] + PendingPrescriptions(rest))[1..] == PendingPrescriptions(rest);
      }
    }
  }

  /** The pharmacy's two stored lists (`hospital_medicines`, `hospital_prescriptions`). */
  class PharmacyStore {
    var medicines: seq<Medicine>
    var prescriptions: seq<Prescription>

    /** An empty store. */
    constructor ()
      ensures medicines == [] && prescriptions == []
    {
      medicines := [];
      prescriptions := [];
    }

    /**
     * `handleAddMedicine`, reached through a form that only the admin's
     * "Add Medicine" control opens: any other role adds nothing; the admin's
     * submission appends exactly one medicine.
     */
    method HandleAddMedicine(role: string, name: string, dosage: string, quantity: int, price: real,
                             expiryDate: string, supplier: string, now: int)
      modifies this
      ensures !AddMedicineOffered(role) ==> medicines == old(medicines)
      ensures AddMedicineOffered(role) ==>
        medicines == old(medicines) + [NewMedicine(name, dosage, quantity, price, expiryDate, supplier, now)]
      ensures prescriptions == old(prescriptions)
    {
      if !AddMedicineOffered(role) {
        return;
      }
      var newMedicine := NewMedicine(name, dosage, quantity, price, expiryDate, supplier, now);
      medicines := medicines + [newMedicine];
    }

    /** `updatePrescriptionStatus`: only the status of the prescriptions with the id changes. */
    method UpdatePrescriptionStatus(prescriptionId: string, newStatus: PrescriptionStatus)
      modifies this
      ensures prescriptions == StatusUpdated(old(prescriptions), prescriptionId, newStatus)
      ensures medicines == old(medicines)
    {
      prescriptions := StatusUpdated(prescriptions, prescriptionId, newStatus);
    }
  }
}
