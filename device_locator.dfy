/**
 * Serial device discovery: the first entry of a directory listing whose name
 * carries a USB-serial prefix, as a path under /dev. The listing is given;
 * reading the directory is not part of this model.
 */
module DeviceLocator {
  import opened Results

  const DevDir: string := "/dev/"
  /** Prefix of USB-serial devices on Linux. */
  const LinuxPrefix: string := "ttyUSB"
  /** Prefix of USB-serial devices on macOS. */
  const ApplePrefix: string := "tty.usbserial"
  const NoDeviceFound: string := "No USB-Serial device found"

  predicate HasPrefix(s: string, prefix: string) {
    |prefix| <= |s| && s[..|prefix|] == prefix
  }

  predicate IsSerialName(name: string) {
    HasPrefix(name, LinuxPrefix) || HasPrefix(name, ApplePrefix)
  }

  /** `k` is the position of the first USB-serial entry of `listing`. */
  predicate IsFirstSerial(listing: seq<string>, k: nat) {
    k < |listing| && IsSerialName(listing[k]) &&
    forall j :: 0 <= j < k ==> !IsSerialName(listing[j])
  }

  /**
   * The position at which the scan stops: the first USB-serial entry, or
   * `|listing|` when there is none.
   */
  function FirstSerialIndex(listing: seq<string>): (k: nat)
    ensures k <= |listing|
    ensures k < |listing| ==> IsSerialName(listing[k])
    ensures forall j :: 0 <= j < k ==> !IsSerialName(listing[j])
  {
    if listing == [] then 0
    else if IsSerialName(listing[0]) then 0
    else 1 + FirstSerialIndex(listing[1..])
  }

  /** What the scan returns for a given listing. */
  function FirstSerialDevice(listing: seq<string>): (r: Result<string>)
    ensures r.Err? <==> forall i :: 0 <= i < |listing| ==> !IsSerialName(listing[i])
    ensures r.Err? ==> r.error == NoDeviceFound
    ensures r.Ok? ==> IsFirstSerial(listing, FirstSerialIndex(listing)) &&
                      r.value == DevDir + listing[FirstSerialIndex(listing)]
  {
    var k := FirstSerialIndex(listing);
    if k < |listing| then Ok(DevDir + listing[k]) else Err(NoDeviceFound)
  }

  /** The scan of the listing, in listing order, stopping at the first match. */
  method PickSerialDevice(listing: seq<string>) returns (r: Result<string>)
    ensures r == FirstSerialDevice(listing)
  {
    for i := 0 to |listing|
      invariant forall j :: 0 <= j < i ==> !IsSerialName(listing[j])
    {
      var name := listing[i];
      if HasPrefix(name, LinuxPrefix) || HasPrefix(name, ApplePrefix) {
        FirstMatchIsPicked(listing, i);
        return Ok(DevDir + name);
      }
    }
    return Err(NoDeviceFound);
  }

  /** Any first match determines the result: the device picked is that entry under /dev. */
  lemma FirstMatchIsPicked(listing: seq<string>, k: nat)
    requires IsFirstSerial(listing, k)
    ensures FirstSerialDevice(listing) == Ok(DevDir + listing[k])
  {
  }

  /**
   * A successful result is a path under /dev whose remainder is an entry of the
   * listing carrying one of the two prefixes, and no earlier entry carries either.
   */
  lemma PickedPathIsListed(listing: seq<string>)
    requires FirstSerialDevice(listing).Ok?
    ensures HasPrefix(FirstSerialDevice(listing).value, DevDir)
    ensures exists k :: 0 <= k < |listing| && IsFirstSerial(listing, k) && FirstSerialDevice(listing).value == DevDir + listing[k]
    ensures FirstSerialDevice(listing).value[|DevDir|..] in listing
    ensures IsSerialName(FirstSerialDevice(listing).value[|DevDir|..])
  {
  }

  /**
   * Scanning a listing in two parts: entries after the first match never
   * matter, and a part without matches is skipped.
   */
  lemma {:induction false} ScanSplits(front: seq<string>, back: seq<string>)
    ensures FirstSerialDevice(front + back) ==
            if FirstSerialDevice(front).Ok? then FirstSerialDevice(front) else FirstSerialDevice(back)
  {
    var whole := front + back;
    if FirstSerialDevice(front).Ok? {
      var k := FirstSerialIndex(front);
      assert whole[k] == front[k];
      assert forall j :: 0 <= j < k ==> whole[j] == front[j];
      FirstMatchIsPicked(whole, k);
    } else if FirstSerialDevice(back).Ok? {
      var k := FirstSerialIndex(back);
      assert whole[|front| + k] == back[k];
      forall j | 0 <= j < |front| + k
        ensures !IsSerialName(whole[j])
      {
        if j < |front| {
          assert whole[j] == front[j];
        } else {
          assert whole[j] == back[j - |front|];
        }
      }
      FirstMatchIsPicked(whole, |front| + k);
    } else {
      forall j | 0 <= j < |whole|
        ensures !IsSerialName(whole[j])
      {
        if j < |front| {
          assert whole[j] == front[j];
        } else {
          assert whole[j] == back[j - |front|];
        }
      }
    }
  }

  /** A name that differs from a prefix at some position inside both does not carry it. */
  lemma DiffersFrom(name: string, prefix: string, i: nat)
    requires i < |name| && i < |prefix| && name[i] != prefix[i]
    ensures !HasPrefix(name, prefix)
  {
  }

  /** The first USB-serial entry is picked, whatever follows it. */
  lemma LinuxScenario()
    ensures FirstSerialDevice(["ttyUSB3", "ttyACM0"]) == Ok("/dev/ttyUSB3")
  {
    assert "ttyUSB3"[..6] == LinuxPrefix;
    FirstMatchIsPicked(["ttyUSB3", "ttyACM0"], 0);
    assert DevDir + "ttyUSB3" == "/dev/ttyUSB3";
  }

  /**
   * A listing sorted by name, as the directory read delivers it: the lowest
   * numbered USB-serial device is picked; non-matching entries are skipped.
   */
  lemma SortedListingScenario()
    ensures FirstSerialDevice(["ttyS0", "ttyUSB0", "ttyUSB1"]) == Ok("/dev/ttyUSB0")
  {
    assert "ttyUSB0"[..6] == LinuxPrefix;
    FirstMatchIsPicked(["ttyS0", "ttyUSB0", "ttyUSB1"], 1);
    assert DevDir + "ttyUSB0" == "/dev/ttyUSB0";
  }

  /** The macOS prefix is recognised too. */
  lemma AppleScenario()
    ensures FirstSerialDevice(["console", "tty.usbserial-A9007"]) == Ok("/dev/tty.usbserial-A9007")
  {
    DiffersFrom("console", LinuxPrefix, 0);
    assert "tty.usbserial-A9007"[..13] == ApplePrefix;
    FirstMatchIsPicked(["console", "tty.usbserial-A9007"], 1);
    assert DevDir + "tty.usbserial-A9007" == "/dev/tty.usbserial-A9007";
  }

  /** Without a USB-serial entry (the match is case-sensitive) the scan fails. */
  lemma NoDeviceScenario()
    ensures FirstSerialDevice(["ttyACM0", "ttyusb0"]) == Err(NoDeviceFound)
  {
    DiffersFrom("ttyACM0", LinuxPrefix, 3);
    DiffersFrom("ttyusb0", LinuxPrefix, 3);
    var none := ["ttyACM0", "ttyusb0"];
    assert !IsSerialName(none[0]) && !IsSerialName(none[1]);
  }
}
