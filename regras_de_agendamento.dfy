/** The business rules of `AgendaDeConsultas`: the guards over a requested
    instant and the stored appointments, and the decision `agendar` and
    `cancelar` take, stated as functions of the store. */
module RegrasDeAgendamento {
  import opened Base
  import opened Tempo
  import opened DominioConsulta
  import CR = ConsultaRepository
  import MR = MedicoRepository

  /** The kinds of `ValidacaoException`, one per message of the source. */
  datatype Erro =
    | PacienteInexistenteOuInativo
    | MedicoInexistenteOuInativo
    | ClinicaFechadaAosDomingos
    | ForaDoHorarioDeFuncionamento
    | AntecedenciaInsuficiente
    | PacienteComConsultaNoDia
    | MedicoOcupado
    | NenhumMedicoDisponivel
    | ConsultaInexistente
    | CancelamentoSemAntecedencia

  /** What the core reads of a patient: whether the account is active. */
  datatype Paciente = Paciente(ativo: bool)

  /** The detail returned by a successful booking. */
  datatype DadosDetalhamentoConsulta = DadosDetalhamentoConsulta(id: int, idMedico: int, idPaciente: int, data: Instante)

  const HoraAbertura: int := 7
  const HoraFechamento: int := 19
  /** Minimum lead time for booking, in minutes. */
  const AntecedenciaAgendamento: int := 30
  /** Minimum notice for cancelling, in minutes (24 hours). */
  const AntecedenciaCancelamento: int := 24 * MinutosPorHora

  /** Open Monday to Saturday, from 07:00 up to but excluding 19:00; the
      Sunday error wins over the hour error. */
  function ValidarHorarioFuncionamento(data: Instante): (erro: Option<Erro>)
    ensures erro == Some(ClinicaFechadaAosDomingos) <==> DiaDaSemana(data) == Domingo
    ensures erro == None
        <==> DiaDaSemana(data) != Domingo && ComHora(data, HoraAbertura) <= data < ComHora(data, HoraFechamento)
    ensures erro.Some? && erro != Some(ClinicaFechadaAosDomingos) ==> erro == Some(ForaDoHorarioDeFuncionamento)
  {
    Decomposicao(data);
    var diaDaSemana := DiaDaSemana(data);
    var hora := Hora(data);
    if diaDaSemana == Domingo then Some(ClinicaFechadaAosDomingos)
    else if hora < HoraAbertura || hora >= HoraFechamento then Some(ForaDoHorarioDeFuncionamento)
    else None
  }

  /** Rejected exactly when `data` is before `agora` plus 30 minutes. */
  function ValidarAntecedenciaMinima(data: Instante, agora: Instante): Option<Erro> {
    if data < agora + AntecedenciaAgendamento then Some(AntecedenciaInsuficiente) else None
  }

  /** Rejected when the patient has an active appointment between 07:00 and
      19:00, both included, of the requested day. */
  function ValidarPacienteComOutraConsultaNoDia(tabela: CR.Tabela, idPaciente: int, data: Instante): Option<Erro> {
    var primeiroHorario := ComHora(data, HoraAbertura);
    var ultimoHorario := ComHora(data, HoraFechamento);
    if CR.ExistsByPacienteIdAndDataHoraBetweenAndAtivoTrue(tabela, idPaciente, primeiroHorario, ultimoHorario)
    then Some(PacienteComConsultaNoDia) else None
  }

  /** Rejected when the practitioner has an active appointment at exactly `dataHora`. */
  function ValidarMedicoOcupado(tabela: CR.Tabela, idMedico: int, dataHora: Instante): Option<Erro> {
    if CR.ExistsByMedicoIdAndDataHoraAndAtivoTrue(tabela, idMedico, dataHora) then Some(MedicoOcupado) else None
  }

  predicate PacienteValido(pacientes: map<int, Paciente>, idPaciente: int) {
    idPaciente in pacientes && pacientes[idPaciente].ativo
  }

  predicate MedicoValido(medicos: map<int, MR.Medico>, idMedico: int) {
    idMedico in medicos && medicos[idMedico].ativo
  }

  /** The error `agendar` throws for this request, in the order of its checks,
      or `None` when it books. Which practitioner is picked automatically
      does not decide the outcome, only whether one can be. */
  function Rejeicao(
    tabela: CR.Tabela, pacientes: map<int, Paciente>, medicos: map<int, MR.Medico>,
    idPaciente: int, idMedico: Option<int>, data: Instante, agora: Instante): Option<Erro>
  {
    if !PacienteValido(pacientes, idPaciente) then Some(PacienteInexistenteOuInativo)
    else if idMedico.Some? && !MedicoValido(medicos, idMedico.value) then Some(MedicoInexistenteOuInativo)
    else if ValidarHorarioFuncionamento(data).Some? then ValidarHorarioFuncionamento(data)
    else if ValidarAntecedenciaMinima(data, agora).Some? then ValidarAntecedenciaMinima(data, agora)
    else if ValidarPacienteComOutraConsultaNoDia(tabela, idPaciente, data).Some? then
      ValidarPacienteComOutraConsultaNoDia(tabela, idPaciente, data)
    else if idMedico.Some? then ValidarMedicoOcupado(tabela, idMedico.value, data)
    else if MR.Livres(medicos, tabela, data) == {} then Some(NenhumMedicoDisponivel)
    else None
  }

  /** The error `cancelar` throws, or `None` when it cancels. The current
      status is not looked at. */
  function RejeicaoCancelamento(tabela: CR.Tabela, idConsulta: int, agora: Instante): Option<Erro> {
    if idConsulta !in tabela then Some(ConsultaInexistente)
    else if tabela[idConsulta].dataHora < agora + AntecedenciaCancelamento then Some(CancelamentoSemAntecedencia)
    else None
  }

  /** The practitioner a successful booking may be given: the named one, or
      any free active one when none was named. */
  predicate MedicoResolvido(
    tabela: CR.Tabela, medicos: map<int, MR.Medico>, idMedico: Option<int>, data: Instante, escolhido: int)
  {
    if idMedico.Some? then escolhido == idMedico.value else escolhido in MR.Livres(medicos, tabela, data)
  }

  /** The state a store of appointments built by these rules is in: every
      active appointment is within operating hours, no practitioner has two
      active appointments at the same instant, and no patient has two active
      appointments on the same day. */
  ghost predicate Consistente(tabela: CR.Tabela) {
    (forall k :: k in tabela && tabela[k].ativo ==> ValidarHorarioFuncionamento(tabela[k].dataHora) == None)
    && (forall i, j ::
          (i in tabela && j in tabela && i != j && tabela[i].ativo && tabela[j].ativo
           && tabela[i].medico == tabela[j].medico) ==> tabela[i].dataHora != tabela[j].dataHora)
    && (forall i, j ::
          (i in tabela && j in tabela && i != j && tabela[i].ativo && tabela[j].ativo
           && tabela[i].paciente == tabela[j].paciente) ==> Dia(tabela[i].dataHora) != Dia(tabela[j].dataHora))
  }

  // ------------------------------------------------------------------
  // Properties of the guards

  /** On a day other than Sunday, 07:00 and 18:59 are open, 06:59 and 19:00
      are not; on a Sunday every hour is refused with the Sunday error. */
  lemma LimitesDoHorario(dia: int)
    ensures var t := Em(dia, 0, 0);
      DiaDaSemana(t) != Domingo ==>
        ValidarHorarioFuncionamento(Em(dia, 7, 0)) == None
        && ValidarHorarioFuncionamento(Em(dia, 18, 59)) == None
        && ValidarHorarioFuncionamento(Em(dia, 6, 59)) == Some(ForaDoHorarioDeFuncionamento)
        && ValidarHorarioFuncionamento(Em(dia, 19, 0)) == Some(ForaDoHorarioDeFuncionamento)
    ensures forall h, m :: 0 <= h < 24 && 0 <= m < 60 && DiaDaSemana(Em(dia, 0, 0)) == Domingo ==>
        ValidarHorarioFuncionamento(Em(dia, h, m)) == Some(ClinicaFechadaAosDomingos)
  {
  }

  /** The lead-time boundary: exactly 30 minutes ahead is accepted, 29 is
      not, and an accepted instant stays accepted when moved later. */
  lemma LimiteDaAntecedencia(agora: Instante, data: Instante, depois: Instante)
    ensures ValidarAntecedenciaMinima(agora + 30, agora) == None
    ensures ValidarAntecedenciaMinima(agora + 29, agora) == Some(AntecedenciaInsuficiente)
    ensures ValidarAntecedenciaMinima(data, agora) == None <==> data - agora >= 30
    ensures data <= depois && ValidarAntecedenciaMinima(data, agora) == None ==> ValidarAntecedenciaMinima(depois, agora) == None
  {
  }

  /** The patient guard rejects exactly when an active appointment of that
      patient falls on the same day between 07:00 and 19:00, 19:00 included;
      cancelled appointments and other days never count. */
  lemma ConflitoDoPacienteNoDia(tabela: CR.Tabela, idPaciente: int, data: Instante)
    ensures ValidarPacienteComOutraConsultaNoDia(tabela, idPaciente, data) == Some(PacienteComConsultaNoDia)
        <==> exists k :: k in tabela && tabela[k].ativo && tabela[k].paciente == idPaciente
               && Dia(tabela[k].dataHora) == Dia(data)
               && (HoraAbertura <= Hora(tabela[k].dataHora) < HoraFechamento || tabela[k].dataHora == ComHora(data, HoraFechamento))
    ensures ValidarPacienteComOutraConsultaNoDia(tabela, idPaciente, data) != Some(PacienteComConsultaNoDia)
        ==> ValidarPacienteComOutraConsultaNoDia(tabela, idPaciente, data) == None
  {
    forall k | k in tabela
      ensures ComHora(data, HoraAbertura) <= tabela[k].dataHora <= ComHora(data, HoraFechamento)
          <==> Dia(tabela[k].dataHora) == Dia(data)
               && (HoraAbertura <= Hora(tabela[k].dataHora) < HoraFechamento || tabela[k].dataHora == ComHora(data, HoraFechamento))
    {
      JanelaDoDia(data, tabela[k].dataHora);
    }
  }

  /** The practitioner guard rejects exactly when that practitioner has an
      active appointment at the same instant; the minute before and after
      are a different instant. */
  lemma ConflitoDoMedico(tabela: CR.Tabela, idMedico: int, data: Instante)
    ensures ValidarMedicoOcupado(tabela, idMedico, data) == Some(MedicoOcupado)
        <==> exists k :: k in tabela && tabela[k].ativo && tabela[k].medico == idMedico && tabela[k].dataHora == data
    ensures (forall k :: k in tabela && tabela[k].medico == idMedico && tabela[k].ativo ==> tabela[k].dataHora == data)
        ==> ValidarMedicoOcupado(tabela, idMedico, data + 1) == None && ValidarMedicoOcupado(tabela, idMedico, data - 1) == None
  {
  }

  // ------------------------------------------------------------------
  // Properties of the booking decision

  /** The patient is checked first: an absent or inactive patient is refused
      with that error whatever else the request holds. */
  lemma PacienteVerificadoPrimeiro(
    tabela: CR.Tabela, pacientes: map<int, Paciente>, medicos: map<int, MR.Medico>,
    idPaciente: int, idMedico: Option<int>, data: Instante, agora: Instante)
    requires !PacienteValido(pacientes, idPaciente)
    ensures Rejeicao(tabela, pacientes, medicos, idPaciente, idMedico, data, agora) == Some(PacienteInexistenteOuInativo)
  {
  }

  /** A named practitioner that is absent or inactive is refused before any
      rule about time or conflicts is looked at. */
  lemma MedicoVerificadoAntesDoHorario(
    tabela: CR.Tabela, pacientes: map<int, Paciente>, medicos: map<int, MR.Medico>,
    idPaciente: int, idMedico: int, data: Instante, agora: Instante)
    requires PacienteValido(pacientes, idPaciente) && !MedicoValido(medicos, idMedico)
    ensures Rejeicao(tabela, pacientes, medicos, idPaciente, Some(idMedico), data, agora) == Some(MedicoInexistenteOuInativo)
  {
  }

  /** With valid patient and practitioner, the time rules come next, opening
      hours before lead time. */
  lemma RegrasDeHorario(
    tabela: CR.Tabela, pacientes: map<int, Paciente>, medicos: map<int, MR.Medico>,
    idPaciente: int, idMedico: Option<int>, data: Instante, agora: Instante)
    requires PacienteValido(pacientes, idPaciente)
    requires idMedico.Some? ==> MedicoValido(medicos, idMedico.value)
    ensures DiaDaSemana(data) == Domingo ==>
      Rejeicao(tabela, pacientes, medicos, idPaciente, idMedico, data, agora) == Some(ClinicaFechadaAosDomingos)
    ensures DiaDaSemana(data) != Domingo && (Hora(data) < 7 || Hora(data) >= 19) ==>
      Rejeicao(tabela, pacientes, medicos, idPaciente, idMedico, data, agora) == Some(ForaDoHorarioDeFuncionamento)
    ensures ValidarHorarioFuncionamento(data) == None && data < agora + 30 ==>
      Rejeicao(tabela, pacientes, medicos, idPaciente, idMedico, data, agora) == Some(AntecedenciaInsuficiente)
  {
    Decomposicao(data);
  }

  /** With valid patient and practitioner and the time rules passing, the
      patient-day rule comes next: the request is refused with that error
      exactly when the patient has an active appointment in the 07:00 to
      19:00 window of the day, and in particular when it has an active
      appointment within operating hours on that day. */
  lemma PacienteComConsultaNoDiaAntesDoMedico(
    tabela: CR.Tabela, pacientes: map<int, Paciente>, medicos: map<int, MR.Medico>,
    idPaciente: int, idMedico: Option<int>, data: Instante, agora: Instante, outra: int)
    requires PacienteValido(pacientes, idPaciente)
    requires idMedico.Some? ==> MedicoValido(medicos, idMedico.value)
    requires ValidarHorarioFuncionamento(data) == None && ValidarAntecedenciaMinima(data, agora) == None
    ensures Rejeicao(tabela, pacientes, medicos, idPaciente, idMedico, data, agora) == Some(PacienteComConsultaNoDia)
        <==> CR.ExistsByPacienteIdAndDataHoraBetweenAndAtivoTrue(
               tabela, idPaciente, ComHora(data, HoraAbertura), ComHora(data, HoraFechamento))
    ensures outra in tabela && tabela[outra].ativo && tabela[outra].paciente == idPaciente
        && Dia(tabela[outra].dataHora) == Dia(data) && ValidarHorarioFuncionamento(tabela[outra].dataHora) == None
        ==> Rejeicao(tabela, pacientes, medicos, idPaciente, idMedico, data, agora) == Some(PacienteComConsultaNoDia)
  {
    ConflitoDoPacienteNoDia(tabela, idPaciente, data);
    if outra in tabela && tabela[outra].ativo && tabela[outra].paciente == idPaciente
       && Dia(tabela[outra].dataHora) == Dia(data) && ValidarHorarioFuncionamento(tabela[outra].dataHora) == None
    {
      Decomposicao(tabela[outra].dataHora);
    }
  }

  /** Once the patient, practitioner and time rules pass, a named
      practitioner is refused exactly when busy at that instant, and an
      automatic request is refused exactly when no active practitioner is
      free; otherwise the request is booked. */
  lemma EscolhaDoMedico(
    tabela: CR.Tabela, pacientes: map<int, Paciente>, medicos: map<int, MR.Medico>,
    idPaciente: int, idMedico: Option<int>, data: Instante, agora: Instante)
    requires PacienteValido(pacientes, idPaciente)
    requires idMedico.Some? ==> MedicoValido(medicos, idMedico.value)
    requires ValidarHorarioFuncionamento(data) == None && ValidarAntecedenciaMinima(data, agora) == None
    requires ValidarPacienteComOutraConsultaNoDia(tabela, idPaciente, data) == None
    ensures idMedico.Some? ==>
      (Rejeicao(tabela, pacientes, medicos, idPaciente, idMedico, data, agora) == Some(MedicoOcupado) <==>
         CR.ExistsByMedicoIdAndDataHoraAndAtivoTrue(tabela, idMedico.value, data))
    ensures idMedico.None? ==>
      (Rejeicao(tabela, pacientes, medicos, idPaciente, idMedico, data, agora) == Some(NenhumMedicoDisponivel) <==>
         forall id :: id in medicos && medicos[id].ativo ==> CR.ExistsByMedicoIdAndDataHoraAndAtivoTrue(tabela, id, data))
    ensures Rejeicao(tabela, pacientes, medicos, idPaciente, idMedico, data, agora) == None
        || Rejeicao(tabela, pacientes, medicos, idPaciente, idMedico, data, agora) in {Some(MedicoOcupado), Some(NenhumMedicoDisponivel)}
  {
    if idMedico.None? {
      var livres := MR.Livres(medicos, tabela, data);
      if forall id :: id in medicos && medicos[id].ativo ==> CR.ExistsByMedicoIdAndDataHoraAndAtivoTrue(tabela, id, data) {
        assert livres == {};
      } else {
        var id :| id in medicos && medicos[id].ativo && !CR.ExistsByMedicoIdAndDataHoraAndAtivoTrue(tabela, id, data);
        assert id in livres;
      }
    }
  }

  /** A booked practitioner is active and free at that instant, whichever
      way it was resolved. */
  lemma MedicoResolvidoLivre(
    tabela: CR.Tabela, pacientes: map<int, Paciente>, medicos: map<int, MR.Medico>,
    idPaciente: int, idMedico: Option<int>, data: Instante, agora: Instante, escolhido: int)
    requires Rejeicao(tabela, pacientes, medicos, idPaciente, idMedico, data, agora) == None
    requires MedicoResolvido(tabela, medicos, idMedico, data, escolhido)
    ensures escolhido in MR.Livres(medicos, tabela, data)
    ensures escolhido in medicos && medicos[escolhido].ativo
    ensures !CR.ExistsByMedicoIdAndDataHoraAndAtivoTrue(tabela, escolhido, data)
  {
  }

  /** The decision depends on the active appointments only. */
  lemma RejeicaoIgnoraCanceladas(
    tabela: CR.Tabela, pacientes: map<int, Paciente>, medicos: map<int, MR.Medico>,
    idPaciente: int, idMedico: Option<int>, data: Instante, agora: Instante)
    ensures Rejeicao(tabela, pacientes, medicos, idPaciente, idMedico, data, agora)
         == Rejeicao(CR.FindAllByAtivoTrue(tabela), pacientes, medicos, idPaciente, idMedico, data, agora)
  {
    var ativas := CR.FindAllByAtivoTrue(tabela);
    CR.CanceladasNaoContamParaOPaciente(tabela, idPaciente, ComHora(data, HoraAbertura), ComHora(data, HoraFechamento));
    if idMedico.Some? {
      CR.CanceladasNaoContamParaOMedico(tabela, idMedico.value, data);
    }
    forall id | id in medicos
      ensures CR.ExistsByMedicoIdAndDataHoraAndAtivoTrue(tabela, id, data)
           == CR.ExistsByMedicoIdAndDataHoraAndAtivoTrue(ativas, id, data)
    {
      CR.CanceladasNaoContamParaOMedico(tabela, id, data);
    }
    assert MR.Livres(medicos, tabela, data) == MR.Livres(medicos, ativas, data);
  }

  // ------------------------------------------------------------------
  // The store invariant

  /** A successful booking keeps the store consistent: the new appointment
      is within hours, its practitioner is free at that instant and its
      patient has no other active appointment that day. */
  lemma AgendamentoPreservaConsistencia(
    tabela: CR.Tabela, pacientes: map<int, Paciente>, medicos: map<int, MR.Medico>,
    idPaciente: int, idMedico: Option<int>, data: Instante, agora: Instante, escolhido: int, novoId: int)
    requires Consistente(tabela)
    requires novoId !in tabela
    requires Rejeicao(tabela, pacientes, medicos, idPaciente, idMedico, data, agora) == None
    requires MedicoResolvido(tabela, medicos, idMedico, data, escolhido)
    ensures Consistente(tabela[novoId := Registro(Some(novoId), escolhido, idPaciente, data, true, None)])
  {
    var nova := Registro(Some(novoId), escolhido, idPaciente, data, true, None);
    var depois := tabela[novoId := nova];
    MedicoResolvidoLivre(tabela, pacientes, medicos, idPaciente, idMedico, data, agora, escolhido);
    assert ValidarHorarioFuncionamento(data) == None;
    assert ValidarPacienteComOutraConsultaNoDia(tabela, idPaciente, data) == None;
    forall i, j | i in depois && j in depois && i != j && depois[i].ativo && depois[j].ativo
        && depois[i].medico == depois[j].medico
      ensures depois[i].dataHora != depois[j].dataHora
    {
      if i == novoId || j == novoId {
        var k := if i == novoId then j else i;
        assert k in tabela && tabela[k].ativo && tabela[k].medico == escolhido;
        assert !(k in tabela && tabela[k].ativo && tabela[k].medico == escolhido && tabela[k].dataHora == data);
      }
    }
    var primeiroHorario, ultimoHorario := ComHora(data, HoraAbertura), ComHora(data, HoraFechamento);
    forall i, j | i in depois && j in depois && i != j && depois[i].ativo && depois[j].ativo
        && depois[i].paciente == depois[j].paciente
      ensures Dia(depois[i].dataHora) != Dia(depois[j].dataHora)
    {
      if i == novoId || j == novoId {
        var k := if i == novoId then j else i;
        assert k in tabela && tabela[k].ativo && tabela[k].paciente == idPaciente;
        var x := tabela[k].dataHora;
        assert ValidarHorarioFuncionamento(x) == None;
        var abertura, fechamento := ComHora(x, HoraAbertura), ComHora(x, HoraFechamento);
        assert Dia(x) == Dia(data) ==> abertura == primeiroHorario && fechamento == ultimoHorario;
        assert !(k in tabela && tabela[k].ativo && tabela[k].paciente == idPaciente
                 && primeiroHorario <= x <= ultimoHorario);
      }
    }
  }

  /** A cancellation keeps the store consistent. */
  lemma CancelamentoPreservaConsistencia(tabela: CR.Tabela, idConsulta: int, motivo: MotivoCancelamento)
    requires Consistente(tabela) && idConsulta in tabela
    ensures Consistente(tabela[idConsulta := tabela[idConsulta].Cancelada(motivo)])
  {
  }

  // ------------------------------------------------------------------
  // Properties of the cancellation decision

  /** Cancelling needs the appointment to exist and to be at least 24 hours
      ahead (exactly 24 hours is enough); its status is not looked at, so a
      cancelled appointment can be cancelled again. */
  lemma RegrasDoCancelamento(tabela: CR.Tabela, idConsulta: int, agora: Instante, motivo: MotivoCancelamento)
    ensures idConsulta !in tabela ==> RejeicaoCancelamento(tabela, idConsulta, agora) == Some(ConsultaInexistente)
    ensures idConsulta in tabela ==>
      (RejeicaoCancelamento(tabela, idConsulta, agora) == None <==>
         tabela[idConsulta].dataHora >= agora + 24 * 60)
    ensures idConsulta in tabela ==>
      RejeicaoCancelamento(tabela[idConsulta := tabela[idConsulta].Cancelada(motivo)], idConsulta, agora)
        == RejeicaoCancelamento(tabela, idConsulta, agora)
  {
  }

  // ------------------------------------------------------------------
  // Worked scenarios

  /** Patient 1 is active, no practitioner is named, the request is for
      Tuesday 1970-01-06 at 10:00 made a day earlier, and practitioner 7 is
      the only one and is free: the request is booked, and 7 is the only
      practitioner it can be given. */
  lemma CenarioAgendamentoAutomatico()
    ensures var data := Em(5, 10, 0);
      DiaDaSemana(data) == 1
      && Rejeicao(map[], map[1 := Paciente(true)], map[7 := MR.Medico(true)], 1, None, data, Em(4, 10, 0)) == None
      && MR.Livres(map[7 := MR.Medico(true)], map[], data) == {7}
  {
    var data := Em(5, 10, 0);
    var medicos := map[7 := MR.Medico(true)];
    assert !CR.ExistsByMedicoIdAndDataHoraAndAtivoTrue(map[], 7, data);
    assert 7 in MR.Livres(medicos, map[], data);
  }

  /** Appointment 5, ten hours ahead, cannot be cancelled. */
  lemma CenarioCancelamentoTardio(agora: Instante)
    ensures var tabela := map[5 := Registro(Some(5), 7, 1, agora + 10 * 60, true, None)];
      RejeicaoCancelamento(tabela, 5, agora) == Some(CancelamentoSemAntecedencia)
  {
  }
}
