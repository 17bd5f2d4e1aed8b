/**
 * The read-only summary handed to consumers, and the choice of its display
 * image from the prefix of the service-type identifier.
 */
module Summaries {

  const PRINTER_IMG: string := "\\images\\printer.png"
  const HTTP_IMG: string := "\\images\\http.png"
  const UNKNOWN_IMG: string := "\\images\\unknown.png"
  const SCANNER_IMG: string := "\\images\\scan.png"
  const NVIDEA_IMG: string := "\\images\\nvidea.png"
  const APPLE_IMG: string := "\\images\\apple.png"
  const CLOUD_PRINTER_IMG: string := "\\images\\print-cloud.png"
  const SMB_IMG: string := "\\images\\smbShare.png"

  const PRINTER_SIGNATURE: string := "_printer."
  const PRINTER_SIGNATURE_ALT: string := "_pdl-datastream."
  const PRINTER_SIGNATURE_ALT1: string := "_ipp."
  const PRINTER_SIGNATURE_ALT2: string := "_ipps."
  const HTTP_SIGNATURE: string := "_http."
  const SCANNER_SIGNATURE: string := "_scanner."
  const SCANNER_SIGNATURE_ALT: string := "_uscans."
  const SCANNER_SIGNATURE_ALT1: string := "_uscan."
  const NVIDIA_SIGNATURE: string := "_nvstream_dbd."
  const APPLE_PRODUCT_SIGNATURE: string := "_companion-link."
  const CLOUD_PRINTER_SIGNATURE: string := "_privet."
  const SMB_SHARE_SIGNATURE: string := "_smb."

  /** The eight device images. */
  datatype DeviceKind = Printer | Http | Scanner | Nvidia | Apple | CloudPrinter | SmbShare | Unknown

  function ImageFile(kind: DeviceKind): string {
    match kind
    case Printer => PRINTER_IMG
    case Http => HTTP_IMG
    case Scanner => SCANNER_IMG
    case Nvidia => NVIDEA_IMG
    case Apple => APPLE_IMG
    case CloudPrinter => CLOUD_PRINTER_IMG
    case SmbShare => SMB_IMG
    case Unknown => UNKNOWN_IMG
  }

  /** The if/else chain of SetDefaultImage; `p <= id` is id.StartsWith(p). */
  function Classify(id: string): DeviceKind {
    if PRINTER_SIGNATURE <= id || PRINTER_SIGNATURE_ALT <= id
       || PRINTER_SIGNATURE_ALT1 <= id || PRINTER_SIGNATURE_ALT2 <= id then Printer
    else if HTTP_SIGNATURE <= id then Http
    else if SCANNER_SIGNATURE <= id || SCANNER_SIGNATURE_ALT <= id
       || SCANNER_SIGNATURE_ALT1 <= id then Scanner
    else if NVIDIA_SIGNATURE <= id then Nvidia
    else if APPLE_PRODUCT_SIGNATURE <= id then Apple
    else if CLOUD_PRINTER_SIGNATURE <= id then CloudPrinter
    else if SMB_SHARE_SIGNATURE <= id then SmbShare
    else Unknown
  }

  /** The twelve signatures in the order in which SetDefaultImage tests them. */
  const Signatures: seq<(string, DeviceKind)> := [
    (PRINTER_SIGNATURE, Printer), (PRINTER_SIGNATURE_ALT, Printer),
    (PRINTER_SIGNATURE_ALT1, Printer), (PRINTER_SIGNATURE_ALT2, Printer),
    (HTTP_SIGNATURE, Http),
    (SCANNER_SIGNATURE, Scanner), (SCANNER_SIGNATURE_ALT, Scanner), (SCANNER_SIGNATURE_ALT1, Scanner),
    (NVIDIA_SIGNATURE, Nvidia), (APPLE_PRODUCT_SIGNATURE, Apple),
    (CLOUD_PRINTER_SIGNATURE, CloudPrinter), (SMB_SHARE_SIGNATURE, SmbShare)
  ]

  /**
   * Reference classifier: the kind of the first table entry, at index i or
   * later, whose signature prefixes id; Unknown when none does.
   */
  function FirstMatchFrom(table: seq<(string, DeviceKind)>, id: string, i: nat): DeviceKind
    requires i <= |table|
    decreases |table| - i
  {
    if i == |table| then Unknown
    else if table[i].0 <= id then table[i].1
    else FirstMatchFrom(table, id, i + 1)
  }

  /** The first matching entry decides, whatever later entries match. */
  lemma {:induction false} FirstMatchIsLeast(table: seq<(string, DeviceKind)>, id: string, i: nat, k: nat)
    requires i <= k < |table| && table[k].0 <= id
    requires forall j :: i <= j < k ==> !(table[j].0 <= id)
    ensures FirstMatchFrom(table, id, i) == table[k].1
    decreases k - i
  {
    if i < k {
      FirstMatchIsLeast(table, id, i + 1, k);
    }
  }

  /** In a table without Unknown entries, the answer is Unknown exactly when nothing matches. */
  lemma {:induction false} FirstMatchUnknownIffNone(table: seq<(string, DeviceKind)>, id: string, i: nat)
    requires i <= |table|
    requires forall j :: 0 <= j < |table| ==> table[j].1 != Unknown
    ensures FirstMatchFrom(table, id, i) == Unknown <==> forall j :: i <= j < |table| ==> !(table[j].0 <= id)
    decreases |table| - i
  {
    if i < |table| {
      FirstMatchUnknownIffNone(table, id, i + 1);
    }
  }

  /** The if/else chain is first-match over the signature table, in its fixed order. */
  lemma ClassifyIsFirstMatch(id: string)
    ensures Classify(id) == FirstMatchFrom(Signatures, id, 0)
  {
    var t := Signatures;
    assert t[0].0 == PRINTER_SIGNATURE && t[1].0 == PRINTER_SIGNATURE_ALT && t[2].0 == PRINTER_SIGNATURE_ALT1 && t[3].0 == PRINTER_SIGNATURE_ALT2;
    assert t[4].0 == HTTP_SIGNATURE && t[5].0 == SCANNER_SIGNATURE && t[6].0 == SCANNER_SIGNATURE_ALT && t[7].0 == SCANNER_SIGNATURE_ALT1;
    assert t[8].0 == NVIDIA_SIGNATURE && t[9].0 == APPLE_PRODUCT_SIGNATURE && t[10].0 == CLOUD_PRINTER_SIGNATURE && t[11].0 == SMB_SHARE_SIGNATURE;
    assert FirstMatchFrom(t, id, 12) == Unknown;
    assert FirstMatchFrom(t, id, 11) == (if SMB_SHARE_SIGNATURE <= id then SmbShare else Unknown);
    assert FirstMatchFrom(t, id, 10) == (if CLOUD_PRINTER_SIGNATURE <= id then CloudPrinter else FirstMatchFrom(t, id, 11));
    assert FirstMatchFrom(t, id, 9) == (if APPLE_PRODUCT_SIGNATURE <= id then Apple else FirstMatchFrom(t, id, 10));
    assert FirstMatchFrom(t, id, 8) == (if NVIDIA_SIGNATURE <= id then Nvidia else FirstMatchFrom(t, id, 9));
    assert FirstMatchFrom(t, id, 7) == (if SCANNER_SIGNATURE_ALT1 <= id then Scanner else FirstMatchFrom(t, id, 8));
    assert FirstMatchFrom(t, id, 6) == (if SCANNER_SIGNATURE_ALT <= id then Scanner else FirstMatchFrom(t, id, 7));
    assert FirstMatchFrom(t, id, 5) == (if SCANNER_SIGNATURE <= id then Scanner else FirstMatchFrom(t, id, 6));
    assert FirstMatchFrom(t, id, 4) == (if HTTP_SIGNATURE <= id then Http else FirstMatchFrom(t, id, 5));
    assert FirstMatchFrom(t, id, 3) == (if PRINTER_SIGNATURE_ALT2 <= id then Printer else FirstMatchFrom(t, id, 4));
    assert FirstMatchFrom(t, id, 2) == (if PRINTER_SIGNATURE_ALT1 <= id then Printer else FirstMatchFrom(t, id, 3));
    assert FirstMatchFrom(t, id, 1) == (if PRINTER_SIGNATURE_ALT <= id then Printer else FirstMatchFrom(t, id, 2));
    assert FirstMatchFrom(t, id, 0) == (if PRINTER_SIGNATURE <= id then Printer else FirstMatchFrom(t, id, 1));
  }

  /** Unknown exactly when none of the twelve signatures prefixes the id. */
  lemma ClassifyUnknownIffNoSignature(id: string)
    ensures Classify(id) == Unknown <==> forall j :: 0 <= j < |Signatures| ==> !(Signatures[j].0 <= id)
  {
    ClassifyIsFirstMatch(id);
    FirstMatchUnknownIffNone(Signatures, id, 0);
  }

  /** Any printer signature wins, whatever else the id starts with. */
  lemma PrinterSignaturesWin(id: string)
    requires PRINTER_SIGNATURE <= id || PRINTER_SIGNATURE_ALT <= id
          || PRINTER_SIGNATURE_ALT1 <= id || PRINTER_SIGNATURE_ALT2 <= id
    ensures Classify(id) == Printer
  {
  }

  /** The projection of a record that consumers display. */
  datatype DiscoveredDevice = DiscoveredDevice(
    Key: string, Name: string, Domain: string, Service: string, DeviceImage: string)

  /**
   * The DiscoveredDevice constructor: the four text fields verbatim and the
   * image chosen from `id` under `currentDir` (the process's working
   * directory, captured once).
   */
  function NewDiscoveredDevice(currentDir: string, key: string, name: string, domain: string,
                               service: string, id: string): (d: DiscoveredDevice)
    ensures d.Key == key && d.Name == name && d.Domain == domain && d.Service == service
    ensures currentDir <= d.DeviceImage
    ensures d.DeviceImage[|currentDir|..] == ImageFile(FirstMatchFrom(Signatures, id, 0))
  {
    ClassifyIsFirstMatch(id);
    DiscoveredDevice(key, name, domain, service, currentDir + ImageFile(Classify(id)))
  }
}
