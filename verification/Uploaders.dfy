/** The two uploaders, each proved to follow the shared state machine. */
module Uploaders {
  import opened Basics
  import opened UploadProtocol

  /** The uploader of the router panel: 4 KiB chunks, everything reset on select, `>=` end test. */
  class RouterUploader {
    var file: Option<Bytes>
    var askConfirm: bool
    var pauseFlag: bool
    var cancelFlag: bool
    var fromSize: nat
    var toSize: nat
    var totalFileSize: nat
    // What the browser still owes: slices being read and PUTs without a reply.
    var slices: seq<Bytes>
    var waiting: nat
    ghost var sent: seq<Put>
    ghost var finished: seq<Transfer>

    ghost function View(): State
      reads this
    {
      State(file, askConfirm, pauseFlag, cancelFlag, fromSize, toSize, totalFileSize, slices, waiting, sent, finished)
    }

    constructor ()
      ensures View() == INITIAL
    {
      file, askConfirm, pauseFlag, cancelFlag := None, false, false, false;
      fromSize, toSize, totalFileSize := 0, 0, 0;
      slices, waiting, sent, finished := [], 0, [], [];
    }

    method Upload()
      modifies this
      ensures View() == UploadProtocol.Upload(ROUTER, old(View()))
    {
      if file.Some? {
        var size := |file.value|;
        totalFileSize := size;
        fromSize := toSize;
        toSize := toSize + 4 * 1024;
        if toSize > size {
          toSize := size;
        }
        slices := slices + [Slice(file.value, fromSize, toSize)];
      }
    }

    method UploadPause()
      modifies this
      ensures View() == Step(ROUTER, old(View()), PauseClick)
    {
      if !pauseFlag {
        pauseFlag := true;
      } else {
        pauseFlag := false;
        Upload();
      }
    }

    method UploadCancel()
      modifies this
      ensures View() == Step(ROUTER, old(View()), CancelClick)
      ensures cancelFlag && pauseFlag == old(pauseFlag)
    {
      cancelFlag := true;
      if pauseFlag {
        Upload();
      }
    }

    method UploadChange(chosen: Option<Bytes>, name: string, listing: seq<string>)
      modifies this
      ensures View() == Step(ROUTER, old(View()), Select(chosen, |name| > 128, name in listing))
    {
      pauseFlag, cancelFlag := false, false;
      fromSize, toSize, totalFileSize := 0, 0, 0;
      file, askConfirm, sent := chosen, false, [];
      if chosen.None? || |chosen.value| == 0 {
        return;
      }
      if |name| > 128 {
        return;
      }
      var fileExit := false;
      for i := 0 to |listing|
        invariant !fileExit && name !in listing[..i]
      {
        if name == listing[i] {
          fileExit := true;
          break;
        }
      }
      if fileExit {
        askConfirm := true;
      } else {
        Upload();
      }
    }

    /** OK in the dialog that asks before a file is overwritten. */
    method ConfirmClick()
      requires askConfirm
      modifies this
      ensures View() == Step(ROUTER, old(View()), ConfirmOk)
    {
      askConfirm := false;
      Upload();
    }

    method UploadOndoing()
      modifies this
      ensures View() == Ondoing(ROUTER, old(View()))
    {
      if cancelFlag {
        EndTransfer(Cancelled);
        return;
      }
      if pauseFlag {
        return;
      } else {
        if toSize >= totalFileSize {
          EndTransfer(Complete);
        } else {
          Upload();
        }
      }
    }

    method EndTransfer(ghost outcome: Outcome)
      modifies this
      ensures View() == Close(old(View()), outcome)
    {
      fromSize := 0;
      toSize := 0;
      finished := finished + [Transfer(outcome, if file.Some? then file.value else [], sent)];
      sent := [];
    }

    /** A FileReader is done: its bytes go out under the range that is current now. */
    method OnLoadEnd(i: nat)
      requires i < |slices|
      modifies this
      ensures View() == Step(ROUTER, old(View()), ReadDone(i))
    {
      sent := sent + [Put(fromSize, toSize, slices[i])];
      slices := slices[..i] + slices[i + 1..];
      waiting := waiting + 1;
    }

    method OnPutSuccess()
      requires waiting > 0
      modifies this
      ensures View() == Step(ROUTER, old(View()), PutOk)
    {
      waiting := waiting - 1;
      UploadOndoing();
    }
  }

  /** The uploader of the shared-folder panel: 64 KiB chunks, offsets kept on select, `==` end test. */
  class SharedUploader {
    var file: Option<Bytes>
    var askConfirm: bool
    var pauseFlag: bool
    var cancelFlag: bool
    var fromSize: nat
    var toSize: nat
    var totalFileSize: nat
    // What the browser still owes: slices being read and PUTs without a reply.
    var slices: seq<Bytes>
    var waiting: nat
    ghost var sent: seq<Put>
    ghost var finished: seq<Transfer>

    ghost function View(): State
      reads this
    {
      State(file, askConfirm, pauseFlag, cancelFlag, fromSize, toSize, totalFileSize, slices, waiting, sent, finished)
    }

    constructor ()
      ensures View() == INITIAL
    {
      file, askConfirm, pauseFlag, cancelFlag := None, false, false, false;
      fromSize, toSize, totalFileSize := 0, 0, 0;
      slices, waiting, sent, finished := [], 0, [], [];
    }

    method Upload()
      modifies this
      ensures View() == UploadProtocol.Upload(SHARED, old(View()))
    {
      if file.Some? {
        var size := |file.value|;
        totalFileSize := size;
        fromSize := toSize;
        toSize := toSize + 64 * 1024;
        if toSize > size {
          toSize := size;
        }
        slices := slices + [Slice(file.value, fromSize, toSize)];
      }
    }

    method UploadPause()
      modifies this
      ensures View() == Step(SHARED, old(View()), PauseClick)
    {
      if !pauseFlag {
        pauseFlag := true;
      } else {
        pauseFlag := false;
        Upload();
      }
    }

    method UploadCancel()
      modifies this
      ensures View() == Step(SHARED, old(View()), CancelClick)
      ensures cancelFlag && pauseFlag == old(pauseFlag)
    {
      cancelFlag := true;
      if pauseFlag {
        Upload();
      }
    }

    method UploadChange(chosen: Option<Bytes>)
      modifies this
      ensures View() == Step(SHARED, old(View()), Select(chosen, false, false))
    {
      pauseFlag, cancelFlag := false, false;
      file, askConfirm, sent := chosen, false, [];
      if file == None {
        return;
      }
      Upload();
    }

    method UploadOndoing()
      modifies this
      ensures View() == Ondoing(SHARED, old(View()))
    {
      if cancelFlag {
        EndTransfer(Cancelled);
        return;
      }
      if pauseFlag {
        return;
      } else {
        if toSize == totalFileSize {
          EndTransfer(Complete);
        } else {
          Upload();
        }
      }
    }

    method EndTransfer(ghost outcome: Outcome)
      modifies this
      ensures View() == Close(old(View()), outcome)
    {
      fromSize := 0;
      toSize := 0;
      finished := finished + [Transfer(outcome, if file.Some? then file.value else [], sent)];
      sent := [];
    }

    /** A FileReader is done: its bytes go out under the range that is current now. */
    method OnLoadEnd(i: nat)
      requires i < |slices|
      modifies this
      ensures View() == Step(SHARED, old(View()), ReadDone(i))
    {
      sent := sent + [Put(fromSize, toSize, slices[i])];
      slices := slices[..i] + slices[i + 1..];
      waiting := waiting + 1;
    }

    method OnPutSuccess()
      requires waiting > 0
      modifies this
      ensures View() == Step(SHARED, old(View()), PutOk)
    {
      waiting := waiting - 1;
      UploadOndoing();
    }
  }
}
