/**
 * The UART-DMA transmit gate (UartDma.c): a single busy flag, taken by a
 * non-blocking exclusive load/store in UartDma_Transmit and released by the
 * transfer-complete branch of the DMA channel interrupt.
 */
module UartDma {
  import opened LoggerTypes

  /**
   * What GPDMA1_Channel0_IRQHandler reads from the channel: for each event,
   * whether its flag is active and its interrupt enabled.
   */
  datatype DmaFlags = DmaFlags(
    transferComplete: bool,
    userSettingError: bool,
    updateLinkError: bool,
    dataTransferError: bool
  )

  /** UartDma_ErrorHandler: reports only, recovers nothing. */
  function ErrorHandler(): bool
  {
    false
  }

  /** UartDma_Handler_T together with the DMA channel it guards. */
  class UartDmaHandler {
    /** `is_busy`: 1 from an accepted transmit until transfer-complete. */
    var isBusy: bool
    /** The byte blocks the DMA channel was programmed to send, in order. */
    var programmed: seq<seq<Byte>>
    /** How many of the programmed transfers have completed. */
    ghost var completed: nat

    /** At most one transfer is in flight, and it is exactly while busy. */
    ghost predicate Valid()
      reads this
    {
      && completed <= |programmed| <= completed + 1
      && (isBusy <==> |programmed| == completed + 1)
    }

    /** `static UartDma_Handler_T g_uartDmaHandler = {0}` */
    constructor ()
      ensures Valid() && !isBusy && programmed == [] && completed == 0
    {
      isBusy := false;
      programmed := [];
      completed := 0;
    }

    /**
     * UartDma_Transmit. `data` is the buffer address (None for NULL) with the
     * bytes it points to; `exclusiveFails` says whether the exclusive store
     * (STREXB) of the busy flag fails, something the caller cannot control.
     */
    method Transmit(data: Option<seq<Byte>>, size: U16, exclusiveFails: bool) returns (accepted: bool)
      requires Valid()
      requires data.Some? ==> size <= |data.value|
      modifies this
      ensures Valid()
      ensures accepted <==> data.Some? && size != 0 && !old(isBusy) && !exclusiveFails
      ensures isBusy == (old(isBusy) || accepted)
      ensures programmed == old(programmed) + (if accepted then [data.value[..size]] else [])
      ensures completed == old(completed)
    {
      if data.None? || size == 0 {
        return false;
      }
      var current := isBusy;       // exclusive load
      if current {
        return false;              // already busy: clear the monitor, reject
      }
      if exclusiveFails {
        return false;              // exclusive store failed: nothing written
      }
      isBusy := true;
      // cache clean, then the channel is given the address and the length
      programmed := programmed + [data.value[..size]];
      return true;
    }

    /**
     * GPDMA1_Channel0_IRQHandler: transfer-complete releases the busy flag;
     * an error only clears the error flags and calls the error handler, and
     * the busy flag stays set.
     */
    method Channel0IrqHandler(flags: DmaFlags)
      requires Valid()
      modifies this
      ensures Valid()
      ensures isBusy == (if flags.transferComplete then false else old(isBusy))
      ensures programmed == old(programmed)
      ensures completed == old(completed) + (if flags.transferComplete && old(isBusy) then 1 else 0)
    {
      if flags.transferComplete {
        if isBusy {
          completed := completed + 1;
        }
        isBusy := false;
      } else if flags.userSettingError || flags.updateLinkError || flags.dataTransferError {
        var _ := ErrorHandler();
      }
    }
  }
}
